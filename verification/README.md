# Dialogue topic engine of the WOD talk window

This project models the custom dialogue engine in `WODTalkWindow.cs`. That
window extends Daggerfall Unity's talk window with topics read from a
tab-separated table. Each topic has an answer with `|`-separated variants,
captions that the answer unlocks, and up to three condition triples. The
model covers:

- **Conditions** — the condition evaluator (`EvaluateConditions`,
  `EvaluateNumericComparison`). It fails closed: a missing variable, a
  non-integer operand or an unknown operator makes the topic ineligible.
- **TopicTable** — the loader of the topic table
  (`LoadDialogueTopicsFromCSV`).
- **Catalog** — the tell-me-about catalog (`UpdateTellMeAboutTopics`). It
  drops the built-in faction questions. It keeps only the custom topics
  that are known, eligible and first of their lower-cased caption. It sorts
  the result case-insensitively.
- **Knowledge** — the save-wide set of known captions. It starts as
  `{"any advice?"}`. Unlocks come from the `AddCaption` column.
- **Conversation** — the window's state and its handlers:
  - `SetListboxTopics` and its default selection;
  - `UpdateQuestion`, including the advice question variants;
  - `SetQuestionAnswerPairInConversationListbox`;
  - the `SelectTopicFromTopicList` state machine: its re-entrancy guard,
    list navigation, the repeated-topic templates, first-ask unlocks, the
    "where am I" region unlock, and the rebuild and reselection of the
    list after an unlock;
  - the tone buttons and `TalkToneToIndex`;
  - `OnPush` and `OnPop`.
- **Transcript** — the logbook buttons and the notebook export done by
  `OnPop`.
- **Text** and **Sorting** — the string and list primitives these rely on:
  - trimming, ASCII case mapping, case-insensitive comparison by
    character value;
  - splitting and joining;
  - 32-bit `int.TryParse`, `Replace`;
  - an insertion sort standing in for `List.Sort`.

The model takes several things as parameters rather than computing them:

- Randomness comes in through a `Draws` value:
  - `Random.Range(0, n)` is `Pick(draw, n)`, which is 0 when `n` is 0;
  - a "Random Number" condition reads a roll in 1..100 per topic and slot.
- The engine's external calls come in through a `Host` value:
  - `TalkManager` question and answer texts;
  - news and rumours;
  - macro expansion;
  - the built-in topic lists;
  - whether the NPC is a mobile.
- The gathered world facts (`filterVariables`) are an argument of `Start`.

The window state is an immutable `Session`. Every handler is a pure
function from one session to the next. An exception that aborts a handler
is an explicit outcome: `Threw` for the topic selection, `LoadAborted` for
opening the window.

Where the code and its written description disagree, the model follows
the code:

- A table line with fewer than 13 columns does not just skip that row. The
  column lookup throws, which stops the load and the rest of `OnPush`. The
  topics already read are kept.
- The first repeated-topic template has no `[caption]` placeholder, so not
  every repeated answer names the topic.
- `isFirstAdviceRequest` is cleared after every question/answer pair, not
  only after an advice question. Nothing resets it when the window reopens.
- `OnPush` appends the table's topics to the list loaded before. Only
  `OnPop` clears that list, so pushing twice without a pop lists every
  topic twice.
- After an answer, the window looks up the asked caption in the rebuilt
  list by exact caption. When the caption is no longer there, the model
  clears the question label and keeps the previous `currentQuestion`.
  This is because the model leaves out selection events. In the program,
  rebuilding the list selects its default entry, and that selection
  event calls `UpdateQuestion` for that entry.

## Model

| member | source | states |
|---|---|---|
| Conditions.ParseOperator | WODTalkWindow.cs:1095-1125 | Exactly the six operator spellings `==`, `!=`, `<`, `>`, `<=`, `>=` are recognised; any other text is unknown. |
| Conditions.Resolve | WODTalkWindow.cs:1079-1090 | "Random Number" resolves to the roll; any other variable resolves exactly when it is a known fact, to that fact's value. |
| Conditions.MatchesAny | WODTalkWindow.cs:1097-1100 | True exactly when some alternative equals the value ignoring case. |
| Conditions.ParseAll | WODTalkWindow.cs:1110-1111 | Succeeds exactly when every alternative parses as a 32-bit integer, and then yields each alternative's value in order. |
| Conditions.HoldsForAll | WODTalkWindow.cs:1113 | True exactly when the comparison holds against every bound. |
| Conditions.EqualityVerdict | WODTalkWindow.cs:1097-1100 | `==` is met exactly when some alternative matches ignoring case; it never faults. |
| Conditions.InequalityVerdict | WODTalkWindow.cs:1101-1104 | `!=` is met exactly when no alternative matches ignoring case; it never faults. |
| Conditions.OrderingVerdict | WODTalkWindow.cs:1105-1120 | An ordering faults exactly when the variable or some alternative is not an integer. It is met exactly when all parse and the comparison holds against each. |
| Conditions.Apply | WODTalkWindow.cs:1092-1125 | `==` gives the equality verdict, `!=` the inequality verdict and each ordering operator the ordering verdict for that order. An unrecognised operator is exactly the case that yields the unknown-operator fault. A resolved triple is never skipped. |
| Conditions.NamedFactTriple | WODTalkWindow.cs:1079-1125 | On a gathered fact, a non-blank `==` triple is met exactly when some alternative equals the fact ignoring case, and `!=` exactly when none does. Neither faults. An ordering triple gives the ordering verdict of the fact against the alternatives. |
| Conditions.Evaluate | WODTalkWindow.cs:1063-1129 | A triple is skipped exactly when one of its parts is blank. It fails for a missing variable exactly when it is not skipped, is not "Random Number" and names no known fact. |
| Conditions.Eligible | WODTalkWindow.cs:1051-1134 | A topic is eligible exactly when every triple passes, i.e. is skipped or met. |
| Conditions.EvaluateConditions | WODTalkWindow.cs:1051-1134 | The loop over the triples, with early return, computes exactly `Eligible`. |
| Conditions.BlankTriplesEligible | WODTalkWindow.cs:1063-1072 | A topic whose triples are all blank is eligible whatever the facts. |
| Conditions.MissingVariableIneligible | WODTalkWindow.cs:1085-1090 | A non-blank triple naming an unknown variable makes the topic ineligible. |
| Conditions.AlternativesOfInt | WODTalkWindow.cs:1093 | An integer's text splits into one alternative, itself. |
| Conditions.OrderText | WODTalkWindow.cs:1105-1108 | The spelling written for each ordering parses back to that ordering. |
| Conditions.RandomNumberResolves | WODTalkWindow.cs:1081-1084 | A "Random Number" triple compares the roll's decimal text against the alternatives. |
| Conditions.OrderingAgainstOne | WODTalkWindow.cs:1110-1153 | An ordering of two 32-bit integers against one bound is met exactly when the integer comparison holds. |
| Conditions.RandomNumberComparesRoll | WODTalkWindow.cs:1081-1153 | A "Random Number" triple with an integer bound is met exactly when the roll compares to the bound as the operator says. |
| Conditions.RandomNumberAtLeast | WODTalkWindow.cs:1083 | Since the roll is in 1..100, a `>= lo` triple with lo <= 1 always holds. |
| Conditions.RandomNumberAtMost | WODTalkWindow.cs:1083 | Since the roll is in 1..100, a `<= hi` triple with hi >= 100 always holds. |
| TopicTable.LineLength | WODTalkWindow.cs:1162-1166 | The first line ends at the first line break or at the end of the text. |
| TopicTable.ReadLines | WODTalkWindow.cs:1162-1166 | The lines read contain no line breaks. |
| TopicTable.ReadWrittenLines | WODTalkWindow.cs:1162-1166 | Reading back lines joined by newlines gives the same lines. |
| TopicTable.ParseRow | WODTalkWindow.cs:1168-1192 | A row yields a topic exactly when it has at least 13 tab-separated columns. The topic carries the row's line number and three condition triples. |
| TopicTable.LoadRows | WODTalkWindow.cs:1164-1196 | The topics are the parsed rows in order, numbered consecutively. A short row stops the load: its line number is reported, and the rows before it are kept. |
| TopicTable.RowColumns | WODTalkWindow.cs:1168-1192 | A full row maps column 1 to the caption, the macro expansion of column 2 to the answer, column 3 to `AddCaption`, and columns 4-12 to the three triples. |
| TopicTable.ShortRowRejected | WODTalkWindow.cs:1168-1172 | A row with fewer than 13 columns yields no topic. |
| TopicTable.HeaderSkipped | WODTalkWindow.cs:1164-1166 | The first line is skipped and topics are numbered from 1. |
| Catalog.CaptionLeIsPreorder | WODTalkWindow.cs:1041 | The case-insensitive caption order is total and transitive, so the sort is well defined. |
| Catalog.WithoutOrganizationInfo | WODTalkWindow.cs:1027-1028 | Removes exactly the faction questions and keeps every other item as often as it occurred. |
| Catalog.Admitted | WODTalkWindow.cs:1031-1032 | In table order: exactly the custom topics whose lower-cased caption is known and whose conditions hold. |
| Catalog.FreshSaveListsAdvice | WODTalkWindow.cs:58 | When only "any advice?" is known, every listed custom topic is an advice topic, and the first eligible advice topic is listed. |
| Catalog.FirstPerCaption | WODTalkWindow.cs:1033-1034 | The kept topics come from the admitted ones and stay in table order. |
| Catalog.FirstPerCaptionMembers | WODTalkWindow.cs:1033-1034 | A topic is kept exactly when it is admitted and no earlier admitted topic has the same lower-cased caption. |
| Catalog.CustomItems | WODTalkWindow.cs:1038 | The list items of the chosen topics, one per topic, in order. |
| Catalog.TellMeAbout | WODTalkWindow.cs:1021-1044 | The list is sorted by case-insensitive caption. It is a permutation of the non-faction built-in topics plus the chosen custom items. |
| Catalog.ChosenAreFirstQualifying | WODTalkWindow.cs:1031-1035 | A custom topic is chosen exactly when it qualifies and no earlier qualifying topic shares its lower-cased caption. |
| Catalog.ListingMembers | WODTalkWindow.cs:1021-1044 | An item is listed exactly when it is a non-faction built-in topic or the item of a chosen custom topic. |
| Catalog.NoOrganizationInfoBuiltin | WODTalkWindow.cs:1027-1028 | No built-in faction question is listed, and every other built-in topic is. |
| Catalog.ListedCustomTopicsQualify | WODTalkWindow.cs:1031-1035 | Every listed custom item has a known caption and passing conditions, and is the first qualifying topic with its lower-cased caption. |
| Catalog.FirstQualifyingTopicsListed | WODTalkWindow.cs:1031-1038 | Every qualifying topic that is first with its lower-cased caption is listed. |
| Catalog.CustomItemListedOnce | WODTalkWindow.cs:1033-1034 | A custom item appears at most once in the list. |
| Catalog.OneCustomItemPerCaption | WODTalkWindow.cs:1033-1034 | Two listed custom items with the same lower-cased caption are the same item. |
| Knowledge.Unlock | WODTalkWindow.cs:1702-1710 | The known set grows by exactly the given captions. It reports a change exactly when one of them was new. |
| Knowledge.UnlockIdempotent | WODTalkWindow.cs:1702-1710 | Unlocking the same captions twice changes nothing the second time. |
| Knowledge.CaptionsForWritten | WODTalkWindow.cs:1692-1711 | For an `AddCaption` column written from caption lists, variant `sel` unlocks the lower-cased captions of list `sel`; a variant past the last list unlocks nothing. |
| Conversation.ToneIndex | WODTalkWindow.cs:122-134 | Every tone maps to an index below 3. |
| Conversation.ToneIndexRoundTrip | WODTalkWindow.cs:122-134 | Polite, Normal and Blunt map one-to-one onto 0, 1 and 2. |
| Conversation.Pick | WODTalkWindow.cs:1685 | A draw from `Random.Range(0, n)` is below `n` when `n` is positive, and is 0 when `n` is 0. |
| Conversation.DefaultSelection | WODTalkWindow.cs:938-950 | The list's second entry is selected exactly when its first entry has a parent reference, whatever its kind. |
| Conversation.SetListing | WODTalkWindow.cs:899-951 | Showing a list changes only the topics and the selection. An empty list keeps the old selection; otherwise the default one is chosen. |
| Conversation.FindCaption | WODTalkWindow.cs:1746-1750 | -1 exactly when no topic has the caption; otherwise the first position with exactly that caption. |
| Conversation.QuestionFor | WODTalkWindow.cs:1530-1566 | A non-item gets an empty question. "Any advice?" gets one of the three first-time or later advice questions. Any other item gets the host's question text for the tone. |
| Conversation.AdviceTest | WODTalkWindow.cs:1532 | A caption equals "Any advice?" ignoring case exactly when its lower-cased form is the known key "any advice?". |
| Conversation.UpdateQuestion | WODTalkWindow.cs:1509-1570 | An index out of range clears the label and keeps `currentQuestion`. Otherwise both become the question for the selected item, and nothing else changes. |
| Conversation.PickVariantAsWritten | WODTalkWindow.cs:1684-1686 | Fails exactly when the answer has no non-empty `\|` variant. |
| Conversation.ListAt | WODTalkWindow.cs:1632-1649 | A list handle resolves exactly when it names a list of the host, and then to that list. |
| Conversation.ScreenPasses | WODTalkWindow.cs:1032 | Topic `k` passes the screen exactly when its conditions are eligible under its own rolls. |
| Conversation.Answered | WODTalkWindow.cs:1740-1752 | After an answer, the list is rebuilt exactly when something was unlocked. One question/answer pair is appended, the advice flag is cleared, and only the listed fields change. |
| Conversation.SelectTopicAsWritten | WODTalkWindow.cs:1608-1755 | When selecting a topic throws, the re-entrancy guard is left set. |
| Conversation.SelectTopic | WODTalkWindow.cs:1608-1755 | While the guard is set, an unforced selection changes nothing. Otherwise the guard is released on return. |
| Conversation.OutOfRangeReleasesGuard | WODTalkWindow.cs:1623-1627 | An index out of range only releases the guard. |
| Conversation.BackShowsParent | WODTalkWindow.cs:1632-1640 | A back-navigation item shows the parent list with its default selection. A missing parent leaves the list as it was. |
| Conversation.GroupShowsChildren | WODTalkWindow.cs:1641-1649 | A group item shows its child list with its default selection. A missing child list leaves the list as it was. |
| Conversation.RepeatedResponseText | WODTalkWindow.cs:1667-1677 | Template 0 is used unchanged. Templates 1 and 2 have the topic's caption in place of `[caption]`. |
| Conversation.AnsweredReselects | WODTalkWindow.cs:1740-1752 | After an answer, the first topic with the asked caption is selected and its question shown. If no topic has it, the label is cleared and the old question kept. |
| Conversation.SelectItem | WODTalkWindow.cs:1650-1754 | Selecting an item throws exactly when its reply fails. Otherwise it records the answer and releases the guard. |
| Conversation.ReplyGrows | WODTalkWindow.cs:1650-1738 | A reply never forgets known captions or responded topics. |
| Conversation.AskAddsOnePair | WODTalkWindow.cs:1572-1606 | Asking an item appends exactly one question line and one answer line and clears the first-advice flag. The known and responded sets only grow, and the table, facts, tone and copy list are untouched. |
| Conversation.AskReselects | WODTalkWindow.cs:1740-1752 | After asking, the selection moves to the first topic with the asked caption, with its question shown; if none has it, the label is cleared. |
| Conversation.RepeatAskRefuses | WODTalkWindow.cs:1661-1677 | Asking a custom topic already responded appends the macro-expanded repeated-topic template. Nothing is unlocked and the list stays as it was. |
| Conversation.FirstAskUnlocks | WODTalkWindow.cs:1678-1743 | The first ask of a custom topic marks it responded, answers with the trimmed picked variant and unlocks that variant's captions. The list is rebuilt exactly when one of them was new. |
| Conversation.WhereAmIUnlocksRegion | WODTalkWindow.cs:1716-1736 | "Where am I" by a mobile NPC unlocks the lower-cased current region name when that fact is known; the list is rebuilt only if the region was new. Otherwise nothing is unlocked. |
| Conversation.NewsUnlocksNothing | WODTalkWindow.cs:1654-1657 | Asking for news appends the news text and unlocks nothing. |
| Conversation.SelectKeepsTranscript | WODTalkWindow.cs:1608-1755 | Selecting a topic only ever appends to the conversation. It keeps the copy list, table and facts, and never forgets a known caption. |
| Conversation.SelectKeepsCopiedInRange | WODTalkWindow.cs:1608-1755 | Copied line indexes stay within the conversation across a selection. |
| Conversation.AnswerWithoutVariants | WODTalkWindow.cs:1684-1686 | An answer made only of `\|` characters, the empty answer included, has no variant. |
| Conversation.EmptyAnswerLatchesGuard | WODTalkWindow.cs:1684-1686 | As written, the first ask of a topic without variants throws with the guard set. Every later unforced selection is then ignored. |
| Conversation.AsWrittenThrows | WODTalkWindow.cs:1684-1686 | As written, the first ask of a topic without variants throws after setting the guard and the selection. |
| Conversation.GuardBlocks | WODTalkWindow.cs:1619-1620 | While the guard is set, an unforced selection returns the window unchanged. |
| Conversation.ReplyAgrees | WODTalkWindow.cs:1650-1738 | Wherever the code as written replies, the corrected reply is the same. |
| Conversation.EmptyAnswerReleasesGuard | WODTalkWindow.cs:1684-1686 | Corrected: a topic without variants is answered with an empty line, marked responded, and the guard is released. |
| Conversation.CorrectedAgrees | WODTalkWindow.cs:1608-1755 | Wherever the code as written completes, the corrected selection gives the same window. |
| Conversation.Start | WODTalkWindow.cs:279-332 | Opening resets the responded set, copy list, conversation and question state, and appends the table's topics. A short row aborts it with the tell-me-about list empty; otherwise it takes the facts and shows the tell-me-about list. |
| Conversation.End | WODTalkWindow.cs:334-353 | The notebook receives exactly the copied lines in ascending order. The entry of the k-th sorted index sits after k entries and one separator per gap up to it. A separator sits exactly before each index that does not directly follow the one before it, and nowhere else. The copy list ends sorted and the loaded topics are dropped. |
| Conversation.SetTone | WODTalkWindow.cs:2144-2175 | Choosing a tone records it. Only a tone different from the last one used refreshes the question for the selected topic. |
| Conversation.SetToneTwice | WODTalkWindow.cs:2144-2175 | Pressing the same tone button twice is the same as pressing it once. |
| Conversation.Logbook | WODTalkWindow.cs:2194-2210 | The logbook button toggles the selected line in the copy list and keeps it duplicate-free and in range. |
| Conversation.LogbookAll | WODTalkWindow.cs:2212-2221 | A right click copies exactly every conversation line, without duplicates. |
| Conversation.SelectKeepsConsistent | WODTalkWindow.cs:1608-1755 | The copy list stays duplicate-free and in range across a selection. |
| Conversation.ReopenLoads | WODTalkWindow.cs:279-353 | After a close, opening loads the table once. Opening twice without a close lists its topics twice. |
| Transcript.IndexOf | WODTalkWindow.cs:2207 | The first position holding the value. |
| Transcript.RemoveFirstMembers | WODTalkWindow.cs:2207 | Removing from a duplicate-free list drops exactly that value and keeps it duplicate-free. |
| Transcript.ToggleFlips | WODTalkWindow.cs:2194-2210 | Toggling flips only the selected line's membership and keeps the list duplicate-free. A negative selection changes nothing. |
| Transcript.ToggleTwice | WODTalkWindow.cs:2194-2210 | Toggling a line twice restores the copy list. |
| Transcript.CopyAll | WODTalkWindow.cs:2215-2220 | Every line index 0..count-1, in order. |
| Transcript.SortIndexes | WODTalkWindow.cs:339 | A sorted permutation of the copied indexes. |
| Transcript.SortKeepsDistinct | WODTalkWindow.cs:339 | Sorting keeps the copy list duplicate-free. |
| Transcript.ExportContents | WODTalkWindow.cs:339-353 | Without separators, the export is exactly the copied lines in ascending order, and its length is the count plus the gaps. Every position is fixed: the entry of the k-th sorted index sits after k entries and the separators of the gaps up to it. A position holds a separator exactly when it directly precedes the entry of an index that does not follow the one before it. So no separator comes first, last or twice in a row. |
| Transcript.NotesFromLaid | WODTalkWindow.cs:340-353 | The loop that starts with no previous index puts each entry at its position and a separator exactly before each gap. |
| Transcript.BlankAtGap | WODTalkWindow.cs:344-345 | Given entries at their positions and a separator before every gap, a position is a separator exactly when it directly precedes a gap's entry. |
| Text.Trim | WODTalkWindow.cs:1093 | The trimmed text neither starts nor ends with white space, and is empty exactly when the text is blank. |
| Text.TrimIdempotent | WODTalkWindow.cs:1093 | Trimming twice equals trimming once. |
| Text.EqualsIgnoreCaseIsLowerEquality | WODTalkWindow.cs:1532 | Ordinal case-insensitive equality agrees with equality of the lower-cased texts. |
| Text.CompareIgnoreCase | WODTalkWindow.cs:1041 | The comparison is 0 exactly on case-insensitive equality, and its sign follows the order of the upper-cased texts. |
| Text.JoinSplit | WODTalkWindow.cs:1168 | Splitting on a separator and joining back gives the text again. |
| Text.SplitJoin | WODTalkWindow.cs:1168 | Splitting separator-free parts joined by the separator gives the parts back. |
| Text.ParseIntToString | WODTalkWindow.cs:1110-1113 | Every 32-bit integer's decimal text parses back to it. |
| Text.NonEmptyMembers | WODTalkWindow.cs:1684 | Dropping empty pieces keeps exactly the non-empty pieces. |
| Text.SplitSeparatorsOnly | WODTalkWindow.cs:1684 | A text made only of separators splits into empty pieces only, and has no non-empty piece. |
| Sorting.Sort | WODTalkWindow.cs:1041 | Under a total, transitive order, the result is sorted and a permutation of the input. |

## Left out

- The user interface is not modelled: list boxes, colours, fonts, scroll
  bars, sounds, button layouts, the portrait and the NPC name.
  Neither is the racial talk suppression.
- `GetFilterData` is not modelled. The world facts it gathers are an
  argument of `Conversation.Start`.
- `ProcessAnswerWithMacros`, `TalkManager.GetQuestionText`,
  `GetAnswerText` and `GetNewsOrRumors` are engine calls. They are
  functions supplied by the host. So is the NPC's greeting.
- The where-is and work categories are not modelled. This includes the fake
  `Work` list item in `UpdateQuestion` and `ButtonOkay`, and the location
  list that `OnPush` prepares when the window is already set up. Their list
  items come from engine code that is not part of this model.
- `SetListboxTopics` replaces null or empty captions with a localised
  error text. The model keeps captions as given, because that repair
  depends on old save data and localisation tables.
- `ListBox.SelectIndex` raises selection events (`OnSelectItem` and
  `selectionIndexLastUsed`), which call `UpdateQuestion` again. These are
  not modelled. Neither is the selection reset that `ClearItems` performs.
  One visible effect: when an answer unlocks captions and the asked
  caption is missing from the rebuilt list, the program can append the
  question of the list's default entry, while the model appends the
  question asked before.
- Case mapping is ASCII-only. The culture-sensitive `ToLower` of non-ASCII
  letters is not modelled.
- `List.Sort` is unstable. Its tie-breaking between captions that are equal
  ignoring case is not modelled. The catalog's contract states sortedness
  and the exact contents; the model's insertion sort picks one order.
- Knowledge.CaptionsFor: has no contract of its own. Its behaviour is
  stated for columns written from caption lists by
  `Knowledge.CaptionsForWritten`.
- Saving and restoring `knownCaptions` with the game is not modelled.
- When navigating, a child or parent handle that names no list of the host
  is treated like a null reference. `DefaultSelection` only tests whether
  the first entry has a parent reference, as line 941 does, so there any
  parent handle counts as present.
- Text.CompareIgnoreCase: compares Unicode scalar values, because strings
  here are sequences of them. `string.Compare` with `OrdinalIgnoreCase`
  compares UTF-16 code units. So a character above
  U+FFFF, which is a surrogate pair there, sorts below U+E000-U+FFFF in the
  program but above them in the model.
- The `DialogueLog` debug output and the error logging are not modelled.

## Findings

| source | as written | input that shows it | evidently intended | confidence | as-written member | corrected member |
|---|---|---|---|---|---|---|
| WODTalkWindow.cs:1684-1686 | The answer is split on `\|` with empty pieces removed, and one piece is picked at random. For an answer with no non-empty piece, this indexes an empty array and throws. The throw skips the release at line 1754, so `inListboxTopicContentUpdate` stays set and every later selection from the list is ignored. | A custom topic, asked for the first time, whose answer column is empty or is `\|` | The guard is always released on return, as the comment at lines 1617-1618 asks. A topic with no answer gets an empty answer. | not executed | Conversation.EmptyAnswerLatchesGuard | Conversation.EmptyAnswerReleasesGuard |
