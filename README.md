# UIC generator core in Dafny

This project models the two engines of the UIC (Unique Identifier Code, "CIU" in
French) generator. The service asks a person five short questions over WhatsApp
and derives from the answers a code that is the same each time that person asks
again:

- **FlowManager** (`app/services/flow_manager.py`): the conversation state
  machine. Its parts are:
  - five fixed steps, each with its validator;
  - the RESTART and HELP commands;
  - a table of sessions keyed by phone number, with an expiry;
  - the handling of one inbound message at a time;
  - the sweep that deletes expired sessions.
- **UICService** (`app/services/uic_service.py`): the identifier derivation
  engine. Its parts are:
  - text normalization (NFD, accents dropped, ASCII letters and digits kept,
    upper case);
  - the unsalted SHA-256 fingerprint used to recognise a returning person;
  - the 25-character code `YYY-MMMMDD-FFF-LLLL-HHHHH`, whose last five
    characters come from a salted hash;
  - get-or-create over the `uic_records` table.
- **The record shapes** (`app/models/uic.py`): `UICRecord` and
  `ConversationSession`, with the defaults and the `is_expired` and
  `is_complete` properties.

## Files

| File | Contents |
|---|---|
| `wrappers.dfy` | `Option` and `Result`. |
| `text.dfy` | The pieces of Python's `str` the core relies on: `strip`, `upper`, `isalpha`, `isdigit` and NFD decomposition. Each is stated exactly on the Latin-1 range. |
| `models.dfy` | The two record shapes, `is_expired` and `is_complete`. |
| `uic.dfy` | Normalization, the fingerprint, the code, the duplicate query, get-or-create, and the `UicService` class over a mutable `RecordTable`. |
| `flow.dfy` | The validators, the steps and texts, the session table, `Transition` and the `FlowManager` class. `Transition` is `process_message` written as a function of the session table. |

## How the model is built

- **Time.** A timestamp is an integer number of seconds, and the caller passes
  the current time as `now`. A session expires `60 * session_timeout_minutes`
  seconds after it is created. The configuration limits the timeout to 1..60
  minutes (`app/config.py:62-67`).
- **Tables.**
  - The session table is a `map` from phone number to session. `FlowManager`
    holds it in a field that its methods update.
  - `uic_records` is a `seq` of rows, and a row's position stands for its id.
    It is not a map keyed by fingerprint, because inactive rows may share a
    fingerprint with an active one.
- **Answers.** A session keeps its answers in a map from attribute name to
  text, because `process_message` stores them with `setattr` under the step's
  `field_name`.
- **SHA-256.** The hash is a parameter, a function from a string to a
  64-character lower-case hex digest. Everything about codes and fingerprints
  is proved for every such function. The one exception is
  `SameFingerprintSameInputs`, which assumes the function does not collide on
  the two texts at hand.
- **Methods and specifications.** The state-changing operations are methods of
  classes. Each method is proved equal to a specification function:
  - `FlowManager.ProcessMessage` is proved equal to `Transition`.
  - `UicService.CreateUic` is proved equal to `CreateUicSpec`.

  The properties of the service are then proved as lemmas about those
  functions.

## Behaviour worth knowing

Each behaviour below is read from the code and proved about the model:

- **The city-code question accepts "ß".**
  - `validate_city_code` measures the length after `upper()`, and `"ß".upper()`
    is `"SS"` (`CityCodeAcceptsSharpS`).
  - Apart from ß, the rule is "exactly two letters" (`CityCodeIsTwoLetters`).
- **A flow session never counts as complete.** The flow stores answers under
  `last_name_code`, `first_name_code`, `birth_year_digit`, `city_code` and
  `gender_code`. `is_complete` reads the columns `first_name` .. `health_zone`,
  which the flow never writes (`FlowSessionsNeverComplete`).
- **A session's expiry is never extended.** Answering does not move
  `expires_at`, so a conversation must finish within one timeout of its first
  message (`AcceptedAnswerAdvances`).
- **The first message is an answer.** A phone without a live session, including
  one that has just sent RESTART, gets the welcome text only for an empty message.
  Any other message is checked at once as the answer to question 1
  (`NewUserAnswersQuestionOne`, `MessageAfterRestartAnswersQuestionOne`).
- **HELP leaves an expired session in the table.** Every other message treats
  an expired session exactly like a missing one (`ExpiredActsAsNew`).
- **A deactivated code can never be issued again.**
  - A deactivated row is never matched again.
  - The same answers and salt regenerate its code.
  - The insert then fails on the unique `uic_code` column
    (`DeactivatedCodeBlocksReissue`).
- **Normalization keeps what follows a space.** "Kinshasa (Gombe)" normalizes
  to `KINSHASAGOMBE` (`NormalizeKeepsTextAfterSpace`).
- **The code follows the code, not its documentation.** The code is the
  25-character `YYY-MMMMDD-FFF-LLLL-HHHHH` that `_generate_uic_code` builds.
  The comments at `app/services/uic_service.py:139` and `:176` write the third
  block as `FNNN`, one character longer than the three the f-string takes.
  The `LLLFFFYCG` formula in the comment above `STEPS` and the 15-character
  format in `tests/test_uic_service.py` are not used.

## Model

| member | source | states |
|---|---|---|
| Text.Strip | app/services/flow_manager.py:70 | The result neither begins nor ends with whitespace, and an all-whitespace string strips to empty. |
| Text.StripWindow | app/services/uic_service.py:72 | Stripping cuts out a window of the text, and only whitespace lies outside it. |
| Text.StripFixesStripped | app/services/flow_manager.py:366 | Stripping leaves a string unchanged exactly when it has no surrounding whitespace, so stripping twice equals stripping once. |
| Text.Upper | app/services/uic_service.py:88 | On ASCII text, upper-casing works position by position. |
| Text.UpperLength | app/services/flow_manager.py:109 | Upper-casing lengthens the text by exactly one character per ß. |
| Text.UpperConcat | app/services/uic_service.py:88 | Upper-casing distributes over concatenation. |
| Text.UpperKeepsAlpha | app/services/flow_manager.py:107-115 | After upper-casing, a string is alphabetic exactly when it was before. |
| Text.Decompose | app/services/uic_service.py:76 | NFD of one character is either one character, which is then the character itself, or an ASCII base letter followed by a combining mark. ASCII is unchanged. |
| Text.Nfd | app/services/uic_service.py:76 | NFD leaves ASCII text unchanged. Its meaning on other text comes from `Decompose` and `NfdConcat`. |
| Text.NfdConcat | app/services/uic_service.py:76 | NFD distributes over concatenation. |
| Models.NewUicRecord | app/models/uic.py:79-114 | A new row is active, requested once, has no notes, and is stamped with `now` for both creation and last request. |
| Models.NewSession | app/services/flow_manager.py:311-320 | A new session belongs to its phone, starts at step 0 with no answers, is not complete, and is expired exactly after `now + 60 * timeout`. |
| Models.IsExpired | app/models/uic.py:197-200 | A session is expired exactly when `now` is strictly after `expires_at`. |
| Models.IsComplete | app/models/uic.py:202-211 | A session is complete exactly when all five answer columns are set and non-empty. |
| Models.NewSessionLifetime | app/models/uic.py:197-200 | A new session starts at step 0 with no answers and is not complete. It is expired exactly after `now + 60 * timeout`, and never at `now`. |
| Uic.NormalizeText | app/services/uic_service.py:45-88 | The result only holds A..Z and 0..9. |
| Uic.RemoveNonspacingMarks | app/services/uic_service.py:78-82 | No combining diacritical mark (U+0300..U+036F) remains, and the output is no longer than the input. |
| Uic.RemoveNonspacingMarksFilters | app/services/uic_service.py:78-82 | Every character that is not a mark is kept as often as it occurs, and nothing is added. |
| Uic.RemoveNonspacingMarksConcat | app/services/uic_service.py:78-82 | The filter distributes over concatenation, so what it keeps stays in order. |
| Uic.KeepAsciiAlnum | app/services/uic_service.py:84-85 | Only `[a-zA-Z0-9]` remains, and the output is no longer than the input. |
| Uic.KeepAsciiAlnumFilters | app/services/uic_service.py:84-85 | Every ASCII letter and digit is kept as often as it occurs, and nothing is added. |
| Uic.KeepAsciiAlnumConcat | app/services/uic_service.py:84-85 | The filter distributes over concatenation, so what it keeps stays in order. |
| Uic.Pipeline | app/services/uic_service.py:74-88 | NFD, mark removal, the `[^a-zA-Z0-9]` filter and upper-casing, in that order, give text of A..Z and 0..9 only. |
| Uic.PipelineConcat | app/services/uic_service.py:74-88 | Each stage works one character at a time, so the pipeline distributes over concatenation. |
| Uic.PipelineIsImages | app/services/uic_service.py:74-88 | The staged pipeline equals the character-by-character reading: each character becomes the upper-case ASCII letter or digit it decomposes to, or nothing. |
| Uic.PipelineOfWhitespace | app/services/uic_service.py:74-88 | Whitespace alone contributes nothing to the result. |
| Uic.PipelineOfStrip | app/services/uic_service.py:72-88 | The whitespace that `strip()` removes would contribute nothing to the result anyway. |
| Uic.NormalizeTextIsPipeline | app/services/uic_service.py:69-72 | The leading `strip()` and the empty-input shortcut change nothing in the result. |
| Uic.NormalizeConcat | app/services/uic_service.py:45-88 | `normalize(a + b) == normalize(a) + normalize(b)`. |
| Uic.NormalizeBlank | app/services/uic_service.py:69-72 | Empty and all-whitespace input normalize to "". |
| Uic.NormalizeCanonicalIsIdentity | app/services/uic_service.py:45-88 | Text already made of A..Z and 0..9 normalizes to itself. |
| Uic.NormalizeIdempotent | app/services/uic_service.py:45-88 | Normalizing twice equals normalizing once. |
| Uic.NormalizeDropsDiscarded | app/services/uic_service.py:84-85 | Spaces, apostrophes, hyphens and other non-alphanumerics are dropped wherever they stand. |
| Uic.NormalizeKeepsTextAfterSpace | app/services/uic_service.py:84-85 | A space does not cut the text short: the text after it is normalized and kept. |
| Uic.NormalizeIgnoresAccent | app/services/uic_service.py:74-82 | An accented letter normalizes as its base letter does. |
| Uic.CharImageOfUpper | app/services/uic_service.py:74-88 | A character other than ß and its upper case decompose to the same ASCII letter or digit, or both to nothing. |
| Uic.ImagesOfUpper | app/services/uic_service.py:74-88 | For text without ß, upper-casing first does not change the character-by-character reading. |
| Uic.NormalizeIgnoresCase | app/services/uic_service.py:87-88 | Text and its upper case normalize alike, for text without ß. |
| Uic.CaseVariantsNormalizeAlike | app/services/uic_service.py:87-88 | Two spellings that differ only in case normalize alike, for text without ß. |
| Uic.NormalizeIsImages | app/services/uic_service.py:45-88 | Normalization equals the character-by-character reading. |
| Uic.ImagesAroundDiscarded | app/services/uic_service.py:84-85 | A discarded character splits the reading into the readings of the text before it and after it. |
| Uic.ImagesOfAlnum | app/services/uic_service.py:74-88 | ASCII letters and digits are only upper-cased. |
| Uic.NormalizeAlnum | app/services/uic_service.py:45-88 | Text of ASCII letters and digits normalizes to its upper case. |
| Uic.ExampleGedeon | app/services/uic_service.py:62-63 | "Gédéon" gives GEDEON. |
| Uic.ExampleGedeonLower | app/services/uic_service.py:62-63 | "gedeon" gives GEDEON too. |
| Uic.ExampleFrancois | app/services/uic_service.py:50 | "François" gives FRANCOIS. |
| Uic.ExampleNdjamena | app/services/uic_service.py:64-65 | "N'Djamena" gives NDJAMENA. |
| Uic.ExampleJeanPaul | app/services/uic_service.py:84-85 | "Jean-Paul" gives JEANPAUL. |
| Uic.ExampleGedeonUpper | app/services/uic_service.py:62-63 | "GEDEON" gives itself. |
| Uic.NormalizeInputs | app/services/uic_service.py:194-237 | Each of the five answers is normalized, in order, into the output alphabet. |
| Uic.NormalizeInputsIdempotent | app/services/uic_service.py:194-237 | Normalizing normalized answers changes nothing. |
| Uic.JoinFieldsInjective | app/services/uic_service.py:114 | For normalized fields, the text joined with bar characters determines the five fields. |
| Uic.InputHash | app/services/uic_service.py:90-118 | The fingerprint is the unsalted hash of the five fields joined by bar characters. `SameFingerprintSameInputs` states what it distinguishes. |
| Uic.SameFingerprintSameInputs | app/services/uic_service.py:90-118 | When SHA-256 does not collide on the two texts, normalized answers have equal fingerprints exactly when they are equal. |
| Uic.TakeLast | app/services/uic_service.py:161 | `s[-n:]` for n >= 1 (the code uses n = 3): length `min(len, n)`, the tail of `s`. |
| Uic.TakeFirst | app/services/uic_service.py:162 | `s[:n]` has length `min(len, n)` and is the head of `s`. |
| Uic.PadLeft | app/services/uic_service.py:161 | `rjust` gives length `max(len, width)`, with the fill before the original text. |
| Uic.PadRight | app/services/uic_service.py:162 | `ljust` gives length `max(len, width)`, with the original text before the fill. |
| Uic.HashSuffix | app/services/uic_service.py:167-173 | The suffix has five characters, each an upper-case hex digit. |
| Uic.FormatCode | app/services/uic_service.py:177 | The f-string has 25 characters, dashes at 3, 10, 14 and 19, and each part at its place. |
| Uic.GenerateUicCode | app/services/uic_service.py:120-192 | The code has 25 characters and dashes at 3, 10, 14 and 19. Each part is the padded, truncated answer it comes from, and the salted hash suffix is last. |
| Uic.CodeBodyIgnoresSalt | app/services/uic_service.py:167-177 | The salt affects only the last five characters. |
| Uic.CodeAlphabet | app/services/uic_service.py:161-177 | From normalized answers, every character except the four dashes is A..Z or 0..9. |
| Uic.CodePrefix | app/services/uic_service.py:161-177 | The first 20 characters of the code are the five padded, truncated fields, with the dashes between them. |
| Uic.CodeExample | app/services/uic_service.py:128-142 | For the documented sample answers 1985, KINSHASA, JEAN, 15, KABILA, the fields read `985`, `KINS`, `15`, `JEA` and `KABI`. Together with the dashes this is `985-KINS15-JEA-KABI-` before the hash. |
| Uic.CodePaddingExample | app/services/uic_service.py:161-165 | Short answers are padded: the fields read `005`, `KIXX`, `00`, `JXX` and `KXXX`. That is `0` on the left of the year and the day, and `X` on the right of the others. |
| Uic.ActiveMatches | app/services/uic_service.py:265-268 | Lists exactly the positions of the active rows with the fingerprint, in increasing order. |
| Uic.CheckExistingUic | app/services/uic_service.py:239-281 | Returns the one active row with the fingerprint, or None when there is none. It is an error (MultipleResultsFound) exactly when two such rows exist. |
| Uic.ValidRegistryNeverAmbiguous | app/services/uic_service.py:271 | In a valid table, the duplicate query never fails. |
| Uic.Register | app/services/uic_service.py:315-369 | A failure leaves the table unchanged, a reuse keeps its length, and a new code appends exactly one row. On success, the code returned is held by an active row with the answers' fingerprint. |
| Uic.RegisterReusesActive | app/services/uic_service.py:320-332 | For a returning person, the existing code is returned as not new. Its row gets one more request and the new time, and no other row changes. |
| Uic.RegisterInsertsNew | app/services/uic_service.py:334-369 | For a new person, one active row is appended, requested once and holding the normalized answers, and its code is returned as new. |
| Uic.DeactivatedCodeBlocksReissue | app/services/uic_service.py:334-359 | Answers whose only row was deactivated regenerate that row's code, and the insert fails on the unique `uic_code` column. |
| Uic.TouchKeepsRegistryValid | app/services/uic_service.py:320-332 | Counting one more request on an existing row keeps the table valid. |
| Uic.AppendKeepsRegistryValid | app/services/uic_service.py:334-369 | Appending a row is safe when its code is not in use, it is requested at least once, and no active row has its fingerprint. |
| Uic.RegisterKeepsRegistryValid | app/services/uic_service.py:283-369 | Codes stay unique, no fingerprint gets a second active row, and every request count stays at least 1. |
| Uic.RegisterTwice | app/services/uic_service.py:283-369 | Asking twice with the same answers returns the same code, not new the second time. |
| Uic.CreateUicSpec | app/services/uic_service.py:283-369 | A failure leaves the table unchanged. On success, the code returned is held by an active row whose fingerprint is that of the normalized answers. |
| Uic.UicService.constructor | app/services/uic_service.py:35-43 | Takes the given salt when one is given and non-empty, and the configured salt otherwise. |
| Uic.UicService.CreateUic | app/services/uic_service.py:283-369 | The result and the new table are those of `CreateUicSpec` on the old table, and a valid table stays valid. |
| Flow.ValidateDigitsOnly | app/services/flow_manager.py:68-78 | Accepts exactly when the stripped answer is all digits. Every rejection gives the digits-only message. |
| Flow.ValidateLettersOnly | app/services/flow_manager.py:81-91 | Accepts exactly when the stripped answer is letters and at least 2 long. A non-letter is reported before shortness. |
| Flow.ValidateGenderCode | app/services/flow_manager.py:94-104 | Accepts exactly 1, 2, 3 or 4. A non-digit is reported before an out-of-range digit. |
| Flow.ValidateCityCode | app/services/flow_manager.py:107-117 | Accepts exactly when the stripped answer is letters and its upper case has length 2. A non-letter gets the letters-only message; letters whose upper case is not 2 long get the "exactement 2 lettres" message. |
| Flow.CityCodeIsTwoLetters | app/services/flow_manager.py:107-117 | Without ß, the rule is exactly two letters. |
| Flow.SharpSUpperLength | app/services/flow_manager.py:109 | The upper case of "ß" has length 2. |
| Flow.CityCodeAcceptsSharpS | app/services/flow_manager.py:109-116 | The one-letter answer "ß" is accepted as a two-letter city code. |
| Flow.ValidateNotEmpty | app/services/flow_manager.py:120-128 | Accepts exactly when something other than whitespace remains. |
| Flow.GenderCodesAreDigits | app/services/flow_manager.py:94-104 | The four accepted gender codes are all digits. |
| Flow.RunValidatorAccepts | app/services/flow_manager.py:68-128 | Each validator accepts exactly the answers its rule describes, stated without the error messages. |
| Flow.Validate | app/services/flow_manager.py:56-65 | A step without a validator accepts every answer. |
| Flow.GetQuestion | app/services/flow_manager.py:50-54 | The French text for "fr", the English text for any other language. |
| Flow.StepsShape | app/services/flow_manager.py:149-229 | There are five steps. Each one's key and field name are the same, and each runs its validator: letters, letters, digits, city code, gender code. |
| Flow.FieldNamesShape | app/services/flow_manager.py:160-228 | The five field names differ from one another and from the session table's answer columns. |
| Flow.ValidateStep | app/services/flow_manager.py:56-65 | A step accepts an answer exactly when its validator's rule does. |
| Flow.FlowSessionsNeverComplete | app/models/uic.py:202-211 | A session the flow keeps never counts as complete. |
| Flow.GetOrCreate | app/services/flow_manager.py:271-328 | The session returned is filed under the phone, and with a non-negative timeout it is live at `now`. |
| Flow.GetOrCreateForgetsExpired | app/services/flow_manager.py:295-301 | `get_or_create_session` treats an expired session exactly like a missing one. |
| Flow.StoreValidUpdate | app/services/flow_manager.py:423-435 | Filing a valid session under its own phone keeps the table valid. |
| Flow.GetOrCreateKeepsStoreValid | app/services/flow_manager.py:271-328 | The session returned is live and filed under the phone. The table is unchanged exactly when the phone's session was live; otherwise the new session is at step 0, has no answers and expires `timeout` minutes from now. |
| Flow.Collect | app/services/flow_manager.py:440-446 | `collected_data` has exactly the five step names, each holding its stored answer. |
| Flow.Advance | app/services/flow_manager.py:423-435 | An accepted answer moves the session one step on and keeps its phone, language and expiry. |
| Flow.AnswerStep | app/services/flow_manager.py:405-474 | A rejection leaves the table unchanged, an accepted answer to questions 1-4 stores the advanced session, and the fifth accepted answer deletes the session. |
| Flow.AnswerStepIsolates | app/services/flow_manager.py:405-474 | Answering a step touches no other phone's session. |
| Flow.AnswerStepReplyIgnoresTable | app/services/flow_manager.py:405-474 | The reply to an answer depends on the session, not on the rest of the table. |
| Flow.AnswerStepKeepsStoreValid | app/services/flow_manager.py:405-474 | Answering a step with a stripped message keeps the table valid. |
| Flow.AnswerStepAdvances | app/services/flow_manager.py:423-474 | An accepted answer to questions 1-4 files the advanced session and replies "✅ Compris!" with the next question. |
| Flow.AnswerStepCompletes | app/services/flow_manager.py:438-462 | The fifth accepted answer deletes the session and returns the completion text with the collected answers. |
| Flow.Transition | app/services/flow_manager.py:346-474 | `process_message` on the session table: a message can add a session only for its own phone. |
| Flow.Respond | app/services/flow_manager.py:392-474 | Once the session is found, answering can add a session only for the phone itself. |
| Flow.RespondIsolates | app/services/flow_manager.py:392-474 | Once the session is found, no other phone's session is touched. |
| Flow.HelpChangesNothing | app/services/flow_manager.py:377-390 | HELP, in any case and with any surrounding whitespace, gets the help text and leaves the table unchanged. |
| Flow.RestartDeletesSession | app/services/flow_manager.py:369-375 | RESTART deletes the phone's session, creates none, and replies with the welcome text and question 1. |
| Flow.NewUserAnswersQuestionOne | app/services/flow_manager.py:392-408 | With no live session for the phone, a non-empty message that is not a command is checked at once as the answer to question 1 of a new French session. |
| Flow.MessageAfterRestartAnswersQuestionOne | app/services/flow_manager.py:369-408 | After RESTART, the next non-empty message that is not a command is checked as the answer to question 1 of a new session. |
| Flow.TransitionIsolatesPhones | app/services/flow_manager.py:346-474 | A message never touches another phone's session. |
| Flow.TransitionKeepsStoreValid | app/services/flow_manager.py:346-474 | Every session stays at one of the five steps and holds exactly the earlier answers, each stripped and accepted. |
| Flow.EmptyMessageAtStartWelcomes | app/services/flow_manager.py:392-402 | An empty message at the start gets the welcome text and question 1, and leaves a session at step 0. |
| Flow.TransitionOnLiveSession | app/services/flow_manager.py:392-408 | An answer on a live session goes straight to that session's current step. |
| Flow.RejectedAnswerKeepsSession | app/services/flow_manager.py:410-421 | A rejected answer gets "❌ " with the error and the same question, and no session changes. |
| Flow.AcceptedAnswerAdvances | app/services/flow_manager.py:423-474 | An accepted answer to questions 1-4 is stored under its step's name and moves the session one step on without extending its expiry. The reply is "✅ Compris!" with the next question. |
| Flow.AdvanceKeepsAnswersValid | app/services/flow_manager.py:423-435 | After an accepted answer, the session holds exactly the answers up to it, each stripped and accepted. |
| Flow.CollectKeepsAnswers | app/services/flow_manager.py:440-446 | Collecting five valid answers hands each one back unchanged, under its own name. |
| Flow.CollectedAnswersValid | app/services/flow_manager.py:438-446 | The collected data names the five steps, and each answer is stripped and accepted by its own step. |
| Flow.LastAnswerCompletes | app/services/flow_manager.py:438-462 | The fifth accepted answer deletes the session and replies complete, carrying the five valid answers. |
| Flow.ExpiredActsAsNew | app/services/flow_manager.py:295-301 | An expired session gets the reply a missing one gets, and every message except HELP leaves the same table. |
| Flow.LiveSessions | app/services/flow_manager.py:476-496 | Keeps exactly the sessions whose expiry has not passed, unchanged. |
| Flow.CleanupPartitions | app/services/flow_manager.py:476-496 | The kept and the deleted sessions split the table, the count is the number deleted, and validity is kept. |
| Flow.ReplyDependsOnOwnSession | app/services/flow_manager.py:346-474 | The reply depends on no session other than the phone's own live one. |
| Flow.CleanupIsUnobservable | app/services/flow_manager.py:476-496 | After the expiry sweep, every later message gets the same reply it would have got without the sweep. |
| Flow.FlowManager.constructor | app/services/flow_manager.py:267-269 | Holds the configured timeout and the given valid session table. |
| Flow.FlowManager.GetOrCreateSession | app/services/flow_manager.py:271-328 | The result and the new table are `GetOrCreate` on the old table, and the session is live and valid. |
| Flow.FlowManager.RestartSession | app/services/flow_manager.py:330-344 | The table loses the phone's session and nothing else. |
| Flow.FlowManager.ProcessMessage | app/services/flow_manager.py:346-474 | The reply and the new table are `Transition` on the old table. |
| Flow.FlowManager.CleanupExpiredSessions | app/services/flow_manager.py:476-496 | The table becomes its live sessions, and the count is the number of sessions deleted. |

## Left out

- **Parts of the repository outside this model:**
  - the WhatsApp/Twilio webhook and the step that hands the collected answers to `create_uic` (`app/api/webhook.py`);
  - QR rendering (`app/services/qr_service.py`);
  - settings loading and the salt-strength check (`app/config.py`);
  - logging;
  - the database engine and scripts.
- **External calls and clocks:**
  - SHA-256 and the UTF-8 encoding are a parameter, not computed.
  - `datetime.utcnow()` is a `now` argument. The source reads the clock several times within one call; the model uses one instant per call.
- **Concurrency and transactions:** these are not modelled. Each call is atomic, and an insert that violates `uic_code` uniqueness leaves the table unchanged, as a rolled-back transaction would.
- **Column length limits** (`String(10)`, `String(20)`, …): not modelled.
- **Unicode beyond Latin-1:**
  - `strip`, `upper`, `isalpha`, `isdigit` and NFD are exact on U+0000..U+00FF only.
  - Other characters are treated as caseless non-letters without a decomposition.
  - Letters above U+00FF whose NFD starts with an ASCII letter (Ā, Ş, the Kelvin sign, …) keep that letter in the source's normalization but are dropped by the model, so the codes and fingerprints of such answers are not modelled.
  - Characters above U+00FF whose upper case is ASCII (ſ becomes "S") can make a message read as RESTART or HELP in the source ("reſtart"); the model treats such a message as an answer.
  - The validators' verdicts on such characters are not modelled either.
- **Answer persistence:** answers stored with `setattr` under names that are not columns are modelled as persisted with the session. What the database keeps of them across requests is not modelled.
- **Unused texts:** the English welcome and completion texts are not used by `process_message`, so they are not modelled. The English question texts are modelled.
- RemoveNonspacingMarks: the category-Mn test is exact only on U+0300..U+036F, the block that holds every mark NFD produces from Latin-1. Other Mn characters (U+20D0, for example) survive this stage in the model. The final normalization is unaffected, because `KeepAsciiAlnum` drops them anyway.
- NormalizeIgnoresCase: stated for text without ß, because `"ß".upper()` is "SS" while "ß" itself normalizes to "".
- CityCodeIsTwoLetters: stated for answers without ß, for the same reason. `CityCodeAcceptsSharpS` covers the ß case.
- **Normalization test expectations:** the test expecting "Kinshasa (Gombe)" to normalize to KINSHASA does not match the code. The model follows the code (`NormalizeKeepsTextAfterSpace`).
- **Stale tests:** the tests expecting a 15-character code and a two-digit year expansion in `normalize_inputs` describe code that does not exist, so they are not modelled.
- **The `id` column:** a row's position in `uic_records` stands for its id. The model has no separate id.
