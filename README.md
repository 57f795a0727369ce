# Secret Santa assignment and session model

A Dafny model of the core of a small Secret Santa web app. The core has two parts.

- The assignment generator (`utils/matchingLogic.ts`). It copies the roster and shuffles the copy in place with Fisher–Yates. It then links the shuffled order into one cycle: person k gives to person k + 1, and the last gives to the first.
- The session logic of the app component (`App.tsx`). It holds the roster, the matches and the step (SETUP, MATCHING, REVEAL). The handlers add and remove participants, generate, reset and reshuffle. A reveal timer moves the step on. The admin export renders the matches as text. Every change is mirrored into three browser-storage keys, and each key is read back on its own at start-up.

Modules, one per source file or concern:

- `Wrappers`: `Option`.
- `Types` (types.ts): `Participant`, `Match`, `AppStep`. `AppStep` has a fourth case, `Unrecognized(raw)`, for a stored step string that the start-up code casts to the enum without checking it.
- `Strings`: the JavaScript `trim` and `join('\n')` the handlers use, plus `split('\n')`, which the export lemma uses to undo the join.
- `MatchingLogic`: `GenerateMatches` is a method over an array with a loop invariant. It is proved equal to the specification function `Assignment`. Lemmas about `Assignment` state the generator's guarantees.
- `Persistence`: the storage class with one field per key, the save method and the per-key load.
- `Session`: the class `App` with the component's state fields and one method per handler, plus the pure values the handlers compute (the new participant, the filter, the export text).

Inputs that the browser supplies become parameters:

- `Math.random`: a sequence `draws`, where `draws[i]` is the index picked when the loop is at position i. Each draw must be in [0, i], which is what `Math.floor(Math.random() * (i + 1))` gives. Every proof holds for all such sequences.
- `crypto.randomUUID`: a fresh id passed in.
- `window.confirm` and the PIN prompt: booleans.
- The clock: `isEventReady` is set at mount and by `OpenGate`. The developer "force shuffle" button does the same thing.
- The 2-second `setTimeout`: a `pendingReveals` counter plus the event `RevealTimerFired`.

Where the code behaves differently from what a reader might expect, the model follows the code:

- Generating with fewer than two participants returns `[]` and raises no error.
- Add and remove do not check the step. Only the page hides them outside SETUP.
- The admin reshuffle goes through the ordinary generate handler. That handler's size check and early-event warning still apply, and the admin panel closes whatever the handler did.
- The middle step is MATCHING, the enum value at types.ts:22.
- The export label is `(Gift: …)`.
- `isRevealed` is always `false`, and `specifiedReceiver` is stored but never read by the generator.
- A timer still pending is not cancelled by a reset.
- A reload during MATCHING leaves no timer pending (`Mount` ensures `pendingReveals == 0`), so that session stays in MATCHING until someone generates again (the page offers reset only in REVEAL, App.tsx:515).

## Model

| member | source | states |
|---|---|---|
| MatchingLogic.GenerateMatches | utils/matchingLogic.ts:3-25 | The result equals `Assignment(participants, draws)`. With fewer than two participants it is `[]`; otherwise there is one match per participant. The shuffle runs in place on a fresh array copy, so the caller's roster is not modified. |
| MatchingLogic.Swap | utils/matchingLogic.ts:10 | The destructuring swap: positions i and j exchange their participants, and every other position is unchanged. Partner: `SwapKeepsRoster`. |
| MatchingLogic.ShuffleFrom | utils/matchingLogic.ts:7-11 | The Fisher–Yates rounds from position i down to 1, each swapping with `draws[i]`. The length is kept. Partners: `ShuffleKeepsRoster` and the loop invariant of `GenerateMatches`. |
| MatchingLogic.Shuffle | utils/matchingLogic.ts:6-11 | The whole in-place shuffle of the copied roster, from the last index down, keeping its length. Partner: `ShuffleKeepsRoster`, which makes it a permutation. |
| MatchingLogic.Chain | utils/matchingLogic.ts:13-22 | The cyclic chain over a shuffled order: one match per position, none revealed. Partners: `ChainEnds`, `ChainStep` and `ChainHasNoSelfMatch`. |
| MatchingLogic.Assignment | utils/matchingLogic.ts:3-25 | What `generateMatches` returns: `[]` for fewer than two participants, else one match per participant. Partners: `AssignmentShape`, `EveryoneGivesOnceAndReceivesOnce`, `NoOneDrawsThemselves` and `ReceiverLinksFormOneCycle`. |
| MatchingLogic.SwapKeepsRoster | utils/matchingLogic.ts:10 | A swap keeps the multiset of participants and keeps ids distinct. |
| MatchingLogic.ShuffleKeepsMultiset | utils/matchingLogic.ts:7-11 | The rounds from any position down keep the multiset of participants. |
| MatchingLogic.ShuffleKeepsIdsDistinct | utils/matchingLogic.ts:7-11 | The rounds from any position down keep ids distinct. |
| MatchingLogic.ShuffleKeepsRoster | utils/matchingLogic.ts:7-11 | For all draws in range, the Fisher–Yates result is a permutation of the roster (same multiset) and keeps ids distinct. |
| MatchingLogic.AssignmentShape | utils/matchingLogic.ts:13-22 | For n >= 2: exactly n matches. Match k has santa `shuffled[k]` and receiver `shuffled[k+1]`, wrapping to `shuffled[0]` at the end. `isRevealed` is false. `shuffled` is a permutation of the roster. |
| MatchingLogic.ChainEnds | utils/matchingLogic.ts:15-22 | The givers in order are the shuffled roster. The receivers are the shuffled roster rotated by one. |
| MatchingLogic.GiversAndReceiversAreTheRoster | utils/matchingLogic.ts:14-22 | The multiset of givers and the multiset of receivers both equal the multiset of the roster. |
| MatchingLogic.OccursOnce | App.tsx:111 | On a roster with distinct ids (each a fresh `crypto.randomUUID`), each participant occurs exactly once. This is the step from the multiset facts to `EveryoneGivesOnceAndReceivesOnce`. |
| MatchingLogic.EveryoneGivesOnceAndReceivesOnce | utils/matchingLogic.ts:13-22 | With distinct ids and n >= 2, every participant is a santa exactly once and a receiver exactly once. |
| MatchingLogic.ChainHasNoSelfMatch | utils/matchingLogic.ts:15-17 | In a chain over two or more distinct ids, no match links a person to themselves. |
| MatchingLogic.NoOneDrawsThemselves | utils/matchingLogic.ts:13-16 | With distinct ids and n >= 2, no match has a santa with the same id as its receiver. |
| MatchingLogic.ReceiverOfFirst | utils/matchingLogic.ts:15-22 | Looking up a giver's receiver returns the receiver of the first match whose santa has that id. |
| MatchingLogic.ChainStep | utils/matchingLogic.ts:16 | In the chain over distinct ids, position i gives to position (i + 1) mod n. |
| MatchingLogic.ChainFollow | utils/matchingLogic.ts:13-16 | k receiver links from position i lead to position i + k, counted around the circle. |
| MatchingLogic.ChainReaches | utils/matchingLogic.ts:13-16 | From any position, every other position is reached in fewer than n links. |
| MatchingLogic.ChainReturns | utils/matchingLogic.ts:13-16 | From any position, the walk is back at its start after exactly n links and not earlier. |
| MatchingLogic.ReceiverLinksFormOneCycle | utils/matchingLogic.ts:13-22 | For every participant, the receiver links of the result form one n-cycle: they return after n steps, not before, and reach everyone on the way. |
| MatchingLogic.TwoMakeAMutualPair | utils/matchingLogic.ts:4-22 | With two participants, each gives to the other. |
| MatchingLogic.ThreeFriendsScenario | utils/matchingLogic.ts:7-22 | With draws that shuffle [Alice, Bob, Carol] to [Bob, Carol, Alice], the result is Bob→Carol, Carol→Alice, Alice→Bob. |
| Types.StepName | types.ts:20-24 | The string stored for a step: the enum value of a known step, the raw text of an unrecognized one, and never `""` for a valid step (an empty stored string would load as SETUP). Partner: `Persistence.CastStepName`. |
| Strings.IsWhitespace | App.tsx:108 | The characters JavaScript's `trim` removes (the ECMAScript white space and line terminators). ASCII letters and digits are never among them, so trimming never removes them. Partners: `Trim` and `TrimEmptyIff`. |
| Strings.TrimStart | App.tsx:108 | The leading-whitespace part of `trim`: the result is a suffix, everything dropped is whitespace, and the result does not start with whitespace. |
| Strings.TrimEnd | App.tsx:108 | The trailing-whitespace part of `trim`: the result is a prefix, everything dropped is whitespace, and the result does not end with whitespace. |
| Strings.Trim | App.tsx:108-114 | `trim` returns a slice of the input with only whitespace cut off at either end, and the result has no whitespace at either end. |
| Strings.TrimEmptyIff | App.tsx:108 | The trimmed text is empty exactly when the input is all whitespace. |
| Strings.TrimIdempotent | App.tsx:112-114 | Trimming an already trimmed string changes nothing. |
| Strings.JoinLines | App.tsx:168 | `join('\n')`: `""` for no lines, the line itself for one, and the first line is always a prefix. Partner: `SplitJoinLines`, which inverts it. |
| Strings.SplitLinesPrefix | App.tsx:168 | Splitting `a + b`, where `a` has no newline, glues `a` onto the first piece of `b`. |
| Strings.SplitJoinLines | App.tsx:168 | Splitting at newlines undoes `join('\n')` when no line contains a newline. |
| Session.Registration | App.tsx:106-115 | There is no participant exactly when the name or the interests are all whitespace. Otherwise the participant has the fresh id and the trimmed name and interests. The receiver hint is absent exactly when it is all whitespace, and is the trimmed hint otherwise. |
| Session.WithoutId | App.tsx:126 | The result keeps exactly the participants whose id differs, and is no longer than the input. |
| Session.WithoutIdKeepsOrder | App.tsx:126 | Filtering a concatenation filters each part, so the original order is kept. |
| Session.WithoutAbsentId | App.tsx:126 | Removing an id that no participant has leaves the roster unchanged. |
| Session.WithoutIdKeepsIdsDistinct | App.tsx:126 | Removal keeps ids distinct. |
| Session.AppendKeepsIdsDistinct | App.tsx:110-117 | Appending a participant with a fresh id keeps ids distinct. |
| Session.ExportLine | App.tsx:168 | One export line `santa -> receiver (Gift: interests)`: its length is the three fields plus the 13 characters of fixed text, and it has no newline when the fields have none. Partner: `ExportHasOneLinePerMatch`. |
| Session.ExportLines | App.tsx:168 | The `map` over the matches: one line per match. Partner: `ExportHasOneLinePerMatch`. |
| Session.ExportText | App.tsx:167-168 | The clipboard text: `""` for no matches and the single line for one match. Partner: `ExportHasOneLinePerMatch`, which recovers every line. |
| Session.ExportHasOneLinePerMatch | App.tsx:167-168 | The export is `""` when there are no matches. Otherwise, splitting it at newlines gives one `santa -> receiver (Gift: interests)` line per match, in match order, provided no field contains a newline. |
| Session.App.CopyAdminResults | App.tsx:167-169 | The clipboard text is the export of the current matches, one line per match. |
| Session.App.Mount | App.tsx:41-104 | The state is `Load` of the storage found at start-up. Storage then holds that state again, so a bad entry is replaced by its default. The gate is set by the first clock check, the admin panel is closed and no reveal timer is pending. |
| Session.App.OpenGate | App.tsx:90-91 | The event gate opens, and nothing persisted changes. |
| Session.App.AddParticipant | App.tsx:106-122 | On an invalid form nothing changes. Otherwise exactly the registered participant is appended at the end and earlier entries are kept. Matches, step and timers are unchanged, storage mirrors the state, and distinct ids stay distinct when the id is fresh. |
| Session.App.RemoveParticipant | App.tsx:124-128 | When confirmed, the roster becomes `WithoutId(old roster, id)`; otherwise nothing changes. The step is not checked, and matches and step are unchanged. |
| Session.App.HandleGenerateMatches | App.tsx:130-148 | The outcome is TooFew for fewer than two participants, DeclinedEarly when the event is not ready and the warning is declined, and Generated otherwise. Only Generated changes state: the matches become `Assignment(roster, draws)`, the step becomes MATCHING, and one timer starts. The roster is never changed. |
| Session.App.RevealTimerFired | App.tsx:145-147 | The step becomes REVEAL, one pending timer is used up, and nothing else changes. |
| Session.App.ResetApp | App.tsx:150-155 | When confirmed, the matches become `[]` and the step SETUP, and the roster is kept. A pending timer is not cancelled. |
| Session.App.AdminAccess | App.tsx:158-165 | The admin panel opens exactly when the PIN was accepted. |
| Session.App.CloseAdmin | App.tsx:558 | The admin panel closes. |
| Session.App.AdminReshuffle | App.tsx:173-178 | When not confirmed nothing changes. When confirmed it has the ordinary generate handler's outcome and effect, including its two guards, and the admin panel closes. |
| Persistence.Storage.Save | App.tsx:78-82 | The three keys hold the roster, the matches and the step name, each written on its own. |
| Persistence.Encode | App.tsx:78-82 | What the save effect writes: all three keys are present, and the step key is never `""` for a valid step. Partner: `LoadAfterSave`. |
| Persistence.LoadJson | App.tsx:60-71 | One JSON key read on its own: the parsed value when the entry is present and parses, else the field's default. Partners: `LoadAfterSave` and `BadEntryOnlyResetsItsField`. |
| Persistence.LoadStep | App.tsx:72-74 | The step key: a missing or empty entry leaves SETUP, and any other string becomes a valid step whose name is that string. Partners: `CastStepName` and `ReloadIsStable`. |
| Persistence.CastStep | App.tsx:72-73 | The unchecked cast of a non-empty stored string gives a step whose name is that same string. |
| Persistence.Load | App.tsx:55-75 | Each key is read on its own. A missing or unparseable entry, or an empty step string, falls back to that field's default. The loaded step is always a valid step. |
| Persistence.CastStepName | App.tsx:73-81 | Casting a valid step's saved name gives back that step. |
| Persistence.LoadAfterSave | App.tsx:55-82 | Loading what save wrote reproduces the same roster, matches and step. |
| Persistence.BadEntryOnlyResetsItsField | App.tsx:60-74 | A missing or malformed entry under one key resets only that field to its default (`[]`, `[]`, SETUP); the other two fields are restored. |
| Persistence.ReloadIsStable | App.tsx:55-82 | Loading again after the start-up rewrite gives the same session. |

## Left out

- Rendering is not modelled. This covers the JSX, the decorations, the snowfall, the gift and reveal cards, and the countdown text. The reveal card's flag is local component state and is not persisted.
- The gift-idea and greeting service is not modelled. It is a network client with fixed fallback strings.
- The wall clock and `setInterval` are not modelled. The gate is a boolean input that is set at mount and by `OpenGate`.
- JSON is abstracted: an entry either parses to the value that was saved or is malformed. A well-formed entry of the wrong shape is stored unchecked by the source and is not modelled.
- `Math.random`'s floating point is not modelled. It becomes integer draws in [0, i], and the statistical claim of uniformity is not stated.
- The PIN comparison, `alert` texts and clipboard writing are not modelled beyond their boolean outcome or the text produced.
- The form's input fields are not modelled. They are passed as parameters, and their clearing and refocusing after an add is left out.
- Session.App.AddParticipant: id uniqueness is proved only under the assumption that the supplied id is fresh, which stands in for `crypto.randomUUID`.
- `Persistence.Storage.Save`: a storage write that throws (quota exceeded) is not modelled. The source does not catch it either.
