# Pre-consultation intake wizard: a Dafny model

The system is a small React page (`PreConsultChatbot`) that walks a patient
through consent, three identity fields (name, date of birth, gender) and five
screening questions drawn at random from a fixed pool of ten, then simulates
saving the answers. Its logic is a step machine over
`Consent | PersonalInfo | MedicalQuestions | Saving | Complete | Denied` that
owns the patient context, the current question index, a draft answer buffer,
an error slot, a loading flag and the array of responses that runs parallel to
the selected questions.

The model has seven modules, one file each:

- `types.dfy` (`Types`): the step enumeration and the three records.
- `general_constants.dfy` (`GeneralConstants`): the ten-question pool, the empty
  patient context and the count of five, with their properties.
- `helpers.dfy` (`Helpers`): `selectRandomQuestions`. The random reordering is a
  permutation `perm` passed in as a parameter.
- `js_string.dfy` (`JsString`): the JavaScript string operations the page uses.
  These are `trim`, the blank test `!s.trim()` and the date regular expression
  `^\d{2}\/\d{2}\/\d{4}$`. The regular expression is modelled as a small anchored
  matcher over fixed-count terms.
- `flow.dfy` (`Flow`): the page's state as one value (`Session`). Each handler,
  together with the draft-reload effect it triggers, is a transition function on
  that value. The module also holds the validation, the save payload, runs of
  events and the lemmas that relate several steps.
- `page.dfy` (`PreConsultBotPage`): the component as a class `Chatbot`. Its
  fields are the state variables. Its methods update those fields one by one,
  in the order the handlers call their setters. Each method's new `Model()` is
  proved equal to a `Flow` function of the old one. The handlers use the
  function of the same name. `RestartConsultation` and `BackToConsent` both
  use `Flow.ToConsent`, and `ReloadEffect` uses `Flow.Reload`. `AnswerUpdate`
  replaces the responses with `Flow.UpdateAnswer`. Every method keeps the
  invariant `Valid()`, which is `Flow.Inv` of `Model()`.
- `wrappers.dfy` (`Wrappers`): `Option`, for the source's `string | null`.

Each handler and the React effect it triggers form one atomic step. The effect
at `PreConsultBotPage.tsx:51-57` watches the index, the step and the responses.
Whenever a handler changes one of these and the step ends as the questions
view, the effect reloads the draft and clears the error (`Flow.Reload`,
`Chatbot.ReloadEffect`).

Behaviours of the code worth noting:

- Restart from the refusal view only sets the step back to consent. The patient
  context, the responses, the index and the error are kept, not reset
  (`Flow.RefuseThenRestart`).
- Leaving a step does not in general clear the error. Going back from the first
  question to the identity view keeps the error as it was
  (`Flow.BackFromFirstKeepsError`).
- The save payload trims every answer, not only the answer being edited. The
  answer at the current index is replaced by the trimmed draft
  (`Flow.FinalResponses`).
- `selectRandomQuestions` sorts with a random comparator. This is not a uniform
  shuffle, so the model assumes only that the order is some permutation.

## Model

| member | source | states |
|---|---|---|
| `PreConsultBotPage.Chatbot.constructor` | src/components/PreConsultBotPage.tsx:36-49 | The questions are selected once: `selectRandomQuestions(QUESTIONS_POOL, NUM_QUESTIONS)` with the random order given as `perm`, giving five questions. The step is Consent, the context is empty, the index is 0, loading is off and the draft and error are empty. There is one empty response per question, carrying its text. The invariant holds. |
| `PreConsultBotPage.Chatbot.ReloadEffect` | src/components/PreConsultBotPage.tsx:51-57 | On the questions step, the draft becomes the recorded answer at the index (or `''`) and the error is cleared. On any other step nothing changes (`Flow.Reload`). The invariant is kept. |
| `PreConsultBotPage.Chatbot.HandleConsent` | src/components/PreConsultBotPage.tsx:61-68 | The new state is `Flow.HandleConsent` of the old one and the invariant is kept. |
| `PreConsultBotPage.Chatbot.RestartConsultation` | src/components/PreConsultBotPage.tsx:213 | Only the step changes, to Consent (`Flow.ToConsent`). The invariant is kept. |
| `PreConsultBotPage.Chatbot.BackToConsent` | src/components/PreConsultBotPage.tsx:272 | Only the step changes, to Consent (`Flow.ToConsent`). The invariant is kept. |
| `PreConsultBotPage.Chatbot.EditPatient` | src/components/PreConsultBotPage.tsx:244-257 | One identity field is replaced and nothing else changes (`Flow.EditPatient`). |
| `PreConsultBotPage.Chatbot.EditDraft` | src/components/PreConsultBotPage.tsx:329 | Only the draft is replaced. The error stays (`Flow.EditDraft`). |
| `PreConsultBotPage.Chatbot.HandlePersonalInfoNext` | src/components/PreConsultBotPage.tsx:83-94 | The new state is `Flow.HandlePersonalInfoNext` of the old one and the invariant is kept. |
| `PreConsultBotPage.Chatbot.AnswerUpdate` | src/components/PreConsultBotPage.tsx:100-108 | The responses become `Flow.UpdateAnswer(old responses, i, answer)`. Every other field is unchanged. The invariant is kept. |
| `PreConsultBotPage.Chatbot.HandleNext` | src/components/PreConsultBotPage.tsx:110-129 | The new state is `Flow.HandleNext` of the old one, including the reload effect. The invariant is kept. |
| `PreConsultBotPage.Chatbot.HandleBack` | src/components/PreConsultBotPage.tsx:131-142 | The new state is `Flow.HandleBack` of the old one, including the reload effect. The invariant is kept. |
| `PreConsultBotPage.Chatbot.SaveEffect` | src/components/PreConsultBotPage.tsx:146-170 | On the Saving step it returns `Flow.BuildPayload` of the state before the save and completes the session, with loading off again. On any other step it returns nothing and changes nothing. |
| `Flow.InitialResponses` | src/components/PreConsultBotPage.tsx:47-49 | Gives one response per selected question. Each response carries that question's text and an empty answer. |
| `Flow.Initial` | src/components/PreConsultBotPage.tsx:36-49 | The starting state is on Consent with no error and an empty draft. The context is `INITIAL_PATIENT_CONTEXT`, the index is 0 and loading is off. The responses are `InitialResponses(selected)`, with empty answers. The selection is the one given. The state satisfies the invariant whenever at least one question is selected. |
| `Flow.Inv` | src/components/PreConsultBotPage.tsx:47-49 | The session invariant. The responses run parallel to the selected questions (same length, `responses[i].question == selected[i].text`). The index is a valid question position, as the guards at lines 122-124 and 136-137 keep it. No save is in progress between two events. Every handler's contract states that it preserves `Inv`. |
| `Flow.AnswerAt` | src/components/PreConsultBotPage.tsx:54 | `responses[i]?.answer \|\| ''` gives the recorded answer for an index inside the array and `''` for any other index. |
| `Flow.Reload` | src/components/PreConsultBotPage.tsx:51-57 | On the questions step only the draft (reloaded) and the error (cleared) change. On other steps the state is returned unchanged. |
| `Flow.HandleConsent` | src/components/PreConsultBotPage.tsx:61-68 | The step becomes PersonalInfo on `true` and Denied on `false`. The error is cleared and nothing else changes. The invariant is preserved. |
| `Flow.ToConsent` | src/components/PreConsultBotPage.tsx:213 | The step becomes Consent. Context, responses, index, error, draft and loading are all unchanged. The same code serves the back button at line 272. |
| `Flow.ValidatePersonalInfo` | src/components/PreConsultBotPage.tsx:71-81 | The rules are tried in order and the result is exactly one of four cases: (1) name blank gives the name message; (2) name present and gender blank gives the gender message; (3) both present and dob not of the dd/mm/yyyy shape gives the date message; (4) none only when all three pass. Each case is an if-and-only-if. |
| `Flow.ValidationFirstFailure` | src/components/PreConsultBotPage.tsx:71-81 | The same four cases stated in the source's own terms. Name and gender are tested with `trim() == ''`. The untrimmed dob is tested against the regular expression `^\d{2}\/\d{2}\/\d{4}$`. |
| `Flow.HandlePersonalInfoNext` | src/components/PreConsultBotPage.tsx:83-94 | If validation fails, only the error changes, to the message. If it passes, the step is MedicalQuestions, the index is 0, the error is cleared and the draft is `responses[0]`'s answer. Context and responses are unchanged. The invariant is preserved. |
| `Flow.UpdateAnswer` | src/components/PreConsultBotPage.tsx:100-108 | Length and every question text are preserved. The answer at `i` becomes `a` and every other entry is unchanged. An index outside the array leaves the array identical. |
| `Flow.AnswerAfterUpdate` | src/components/PreConsultBotPage.tsx:54 | A commit followed by the effect's read: reading at the committed position gives the committed answer, and reading at any other position gives the answer recorded before. This links `handleAnswerUpdate` (lines 100-108) to the reload. |
| `Flow.UpdateSameAnswer` | src/components/PreConsultBotPage.tsx:100-108 | Committing the answer already recorded at an index leaves the responses unchanged. |
| `Flow.UpdateLastWins` | src/components/PreConsultBotPage.tsx:100-108 | When two commits go to the same index the later one wins, so committing the same answer twice equals committing it once. |
| `Flow.UpdatesCommute` | src/components/PreConsultBotPage.tsx:100-108 | Commits at different indices can be applied in either order. |
| `Flow.HandleNext` | src/components/PreConsultBotPage.tsx:110-129 | A blank draft sets the error and changes nothing else. Otherwise the untrimmed draft is committed at the index. Before the last question, the questions step continues at index+1 with that entry's answer as the draft and no error. At the last question the step becomes Saving and the draft is kept. The invariant is preserved. |
| `Flow.HandleBack` | src/components/PreConsultBotPage.tsx:131-142 | The draft is committed with no validation, even when blank. Past index 0, the questions step continues at index−1 with that entry's answer as the draft and no error. At index 0 the step becomes PersonalInfo, the index stays 0 and the error is untouched. The invariant is preserved. |
| `Flow.EditPatient` | src/components/PreConsultBotPage.tsx:244-257 | Exactly the chosen identity field takes the new value. Every other part of the state is unchanged. |
| `Flow.EditDraft` | src/components/PreConsultBotPage.tsx:329 | Exactly the draft takes the new value. The error is not cleared. |
| `Flow.FinalResponses` | src/components/PreConsultBotPage.tsx:149-152 | Length, order and question texts are kept and every answer is trimmed. The answer at the current index is the trimmed draft. Every other answer is the trimmed recorded answer. |
| `Flow.BuildPayload` | src/components/PreConsultBotPage.tsx:149-157 | The payload carries the patient context unchanged. It has one response per recorded response and every answer is trimmed. The answer at the current index is the trimmed draft. Every other answer is the trimmed recorded answer. Its responses are parallel to the selected questions whenever the session's are. |
| `Flow.SaveEffect` | src/components/PreConsultBotPage.tsx:146-170 | Saving goes to Complete, with loading off afterwards. Every other step is left unchanged. The invariant is preserved. |
| `Flow.BackAfterNext` | src/components/PreConsultBotPage.tsx:110-142 | Next from a question other than the last, then Back, returns to the same question with the same draft. The only lasting effects are the commit at that question and a cleared error. |
| `Flow.NextAfterBack` | src/components/PreConsultBotPage.tsx:110-142 | Back from a question past the first, then Next (the earlier answer being non-blank), returns to the same question with the same draft. |
| `Flow.FinishThenSave` | src/components/PreConsultBotPage.tsx:110-170 | Next on the last question with a non-blank draft reaches Saving, and the save then reaches Complete. The payload keeps the context. It has one response per question, with that question's text. Its answer at the last index is the trimmed draft and its other answers are the trimmed recorded ones. |
| `Flow.RefuseThenRestart` | src/components/PreConsultBotPage.tsx:61-68 | Refusing and then restarting (line 213) returns to Consent with no error. Context, responses, index and draft are as they were, so nothing is reset. |
| `Flow.BackFromFirstKeepsError` | src/components/PreConsultBotPage.tsx:131-142 | Back on the first question goes to PersonalInfo with the error unchanged and the draft committed at index 0. |
| `Flow.InitialContextFailsOnName` | src/constants/generalConstants.tsx:16-20 | The empty initial context fails validation on the name rule. |
| `Flow.MissingNameExample` | src/components/PreConsultBotPage.tsx:73 | An empty name is reported even when the date and gender are valid. |
| `Flow.MissingGenderExample` | src/components/PreConsultBotPage.tsx:74 | Name "Jo" with an empty gender reports the gender message. |
| `Flow.IsoDateExample` | src/components/PreConsultBotPage.tsx:77-78 | Name and gender present with dob "2000-01-01" reports the date message. |
| `Flow.ValidIdentityExample` | src/components/PreConsultBotPage.tsx:71-81 | "Jo", "01/01/2000", "Male" passes validation. |
| `Flow.Apply` | src/components/PreConsultBotPage.tsx:185-350 | Maps each user event (and the save effect) to its handler. Every event preserves the invariant and none changes the selected questions. |
| `Flow.RunKeepsInv` | src/components/PreConsultBotPage.tsx:100-142 | After any sequence of events the invariant still holds and the selection is unchanged. The invariant is: responses parallel to the selected questions (same length, `responses[i].question == selected[i].text`), index within the questions, and no save pending. |
| `Flow.ReachableFrom` | src/components/PreConsultBotPage.tsx:44-49 | From the initial state, after any events, the responses are parallel to the selection and the index is a valid question position. |
| `Flow.Enabled` | src/components/PreConsultBotPage.tsx:174-460 | Defines which event each step's view offers. Consent offers the two consent buttons and Denied offers restart. PersonalInfo offers its inputs, back and confirm. The questions view offers the answer box, plus back and next when not loading. Saving offers only the save effect. Complete offers nothing. |
| `Flow.EnabledFollowsEdges` | src/components/PreConsultBotPage.tsx:443-460 | Each event that the rendered step offers moves along the wizard's step graph, and on Saving the only event leads to Complete. |
| `Flow.CompleteIsFinal` | src/components/PreConsultBotPage.tsx:383-441 | The completed view offers no event. |
| `Flow.CompleteStays` | src/components/PreConsultBotPage.tsx:383-441 | From the completed view the only run of offered events is the empty one, so the session stays as it is. |
| `Flow.EnabledRunReachesComplete` | src/components/PreConsultBotPage.tsx:166-170 | A run of offered events that ends in Complete passes through Saving, and at that point the save effect is the event taken. |
| `Helpers.SelectRandomQuestions` | src/helpers/index.tsx:4-9 | If `count >= pool.length` the result is the pool itself, in order. If `0 <= count < pool.length` the result has exactly `count` items. A negative count follows `slice`. The result is a sub-multiset of the pool, so no pool position is used twice, and every item is a pool item. |
| `Helpers.SelectionIdsDistinct` | src/helpers/index.tsx:7-8 | If the pool ids are distinct, so are the selected ids. |
| `Helpers.Shuffle` | src/helpers/index.tsx:7 | The reordered copy has the pool's length and the pool's multiset of items. |
| `Helpers.PickSubMultiset` | src/helpers/index.tsx:7-8 | Items taken from distinct positions form a sub-multiset of the sequence. |
| `Helpers.SliceEnd` | src/helpers/index.tsx:8 | The end position of `slice(0, count)`: `count` clipped to the length, or counted back from the end when negative and floored at 0. |
| `GeneralConstants.PoolIds` | src/constants/generalConstants.tsx:3-14 | The pool has ten entries with ids 1..10 in order, so the ids are distinct. |
| `GeneralConstants.PoolTextsDistinct` | src/constants/generalConstants.tsx:4-13 | No question text appears twice in the pool. |
| `GeneralConstants.ConfiguredSelection` | src/constants/generalConstants.tsx:3-22 | `NUM_QUESTIONS` is positive and below the pool length. Selection from the pool therefore yields five items with distinct ids, taken from distinct pool positions. |
| `JsString.TrimStart` | src/components/PreConsultBotPage.tsx:73 | The result is the suffix that begins at the first non-whitespace character. Everything dropped is whitespace. |
| `JsString.TrimEnd` | src/components/PreConsultBotPage.tsx:73 | The result is the prefix that ends at the last non-whitespace character. Everything dropped is whitespace. |
| `JsString.Trim` | src/components/PreConsultBotPage.tsx:151 | `trim()` returns a string that neither starts nor ends with whitespace and is no longer than its input. |
| `JsString.TrimIsInfix` | src/components/PreConsultBotPage.tsx:151 | `trim()` returns the infix of its input left after whitespace is cut at both ends. |
| `JsString.TrimmedIsFixpoint` | src/components/PreConsultBotPage.tsx:151 | A trimmed string trims to itself, so trimming is idempotent. |
| `JsString.TrimEmptyIffBlank` | src/components/PreConsultBotPage.tsx:112 | `!s.trim()` holds exactly when every character of `s` is whitespace. |
| `JsString.IsBlank` | src/components/PreConsultBotPage.tsx:73-74 | Defines the blank test `!x.trim()` used at lines 73, 74 and 112: every character is whitespace. `JsString.TrimEmptyIffBlank` ties it to `Trim`. |
| `JsString.DobMatches` | src/components/PreConsultBotPage.tsx:77-78 | Defines `dobRegex.test(dob)`: the date has the dd/mm/yyyy shape. `JsString.DobMatchesIsRegex` ties it to the anchored matcher for the pattern. |
| `JsString.DobMatchesIsRegex` | src/components/PreConsultBotPage.tsx:77-78 | `^\d{2}\/\d{2}\/\d{4}$` accepts exactly the strings of length 10 with digits at positions 0,1,3,4,6..9 and '/' at positions 2 and 5. |
| `JsString.ImpossibleDateAccepted` | src/components/PreConsultBotPage.tsx:77-78 | "31/02/9999" matches, since there is no calendar check. |
| `JsString.IsoDateRejected` | src/components/PreConsultBotPage.tsx:77-78 | "2000-01-01" does not match. |

## Left out

- Rendering. The `render*` functions and the standalone step components (`CompleteStep.tsx`, `MedicalQuestionsStep.tsx`, `PersonalInfoStep.tsx`, `ConsentStep.tsx`, `SavingStep.tsx`, `DeniedStep.tsx`) are presentation only. The page does not use the step components. The only rendering facts kept are which handlers each step's view offers (`Flow.Enabled`) and the input edits.
- The progress percentage. It is floating-point and only displayed.
- `Math.random` and the random comparator. The reordering is an arbitrary permutation supplied by the caller, so nothing is claimed about uniformity.
- The 2000 ms delay, `async`/`await` and when `loading` is observed. The save is one atomic Saving-to-Complete step: `loading` is set and cleared inside it, so between events it is always off. The payload is built but not sent anywhere; the model returns it.
- React scheduling: `useState` batching, functional updaters, `useMemo` and the order of effects. Each handler together with the effect it triggers is one atomic step. Selection happens once, in the constructor.
- Whitespace for `trim` is a fixed set of characters: ECMAScript WhiteSpace (the Zs characters listed explicitly) and LineTerminator. `\d` is '0'..'9'.
- `count` in `selectRandomQuestions` is an integer. Fractional and non-numeric counts are not modelled.
- Copying the pool before sorting (`[...pool]`) has no counterpart: the model works on values, so the input pool cannot be modified.
