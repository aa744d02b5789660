# Numeric-confirmation dialogue of the chat handler, in Dafny

The chat endpoint `api/chat.js` answers a senior-health assistant's users
through a language model. Before it explains a blood-sugar reading, it makes
the user confirm the number. Each POST carries the message and the
confirmation state returned by the previous response (`pendingNumericConfirm`
and `heardNumber`). The handler then decides three things:

- the reply: a fixed re-prompt, or the text of one language-model call;
- the next `needConfirm` flag;
- the next `heardNumber`.

This project models that decision as pure functions and proves what it
promises. The central promise is about the number `extractNumeric` reads,
the first run of two or three adjacent ASCII digits. Such a number reaches
the model only after an exact "yes" (맞아, 네, 예) while a finite number is
stored. While a confirmation is pending, vague agreement (응, 응 맞아,
맞는 것 같아) never triggers the call.

The promise is narrower than "no number reaches the model unconfirmed". While
idle, a message without two adjacent ASCII digits goes straight to the model
as general conversation. That includes "혈당 5", "1, 4, 5", full-width digits
such as "１４５", and a bare "응" (`IdleWithoutPairGoesToModel`).

Modules, one per part of the handler:

- `Text`: JavaScript's `trim`, the `\s` whitespace class, and matching
  literals and whitespace-separated words at a position.
- `Decimal`: ASCII digits, the value of a digit string (`Number(...)`), and
  the decimal rendering a template literal produces.
- `Numeric`: `extractNumeric`, the first match of `\d{2,3}`.
- `Answers`: `isYes`, `isNo`, `isLoose`.
- `Thanks`: `stripThanks`, the global removal of 감사합니다 and 고마워요.
- `Dialogue`: the handler's branches (`Step`) and the response it sends
  (`Respond`, `Handle`). It also replays whole dialogues in which the caller
  sends back each response's state (`StateAfter`).

The language model is a collaborator. A call appears as the action
`CallModel(messages)`, which holds the system persona and the user prompt.
The text the model returns is an arbitrary string given to `Respond`.

Where the written design of the dialogue and the code disagree, the model
follows the code:

- While a confirmation is pending, a message with a new number does not start
  a new confirmation. It falls through to the generic re-prompt and keeps the
  old number (`NewNumberWhilePendingReprompts`). A following exact "yes" then
  sends the old number, not the restated one: after "146" and "145", "맞아"
  asks the model about 146 (`MisheardCorrectionScenario`). What a "yes"
  confirms is the number the last echo showed (`StoredNumberWasLastEchoed`).
- There is no "다시" negative answer. The negative tokens are exactly 아니야,
  아니 and 틀려.
- `stripThanks` deletes the phrases anywhere in the reply, not only at its
  start. It makes one pass, so the result can still contain a phrase
  (`StripThanksNotIdempotent`).
- After an exact "no", the state is `needConfirm = true` with
  `heardNumber = null`. So "a finite number is stored whenever confirmation
  is awaited" does not hold. That state is a dead end while the caller sends
  back what each response returns (`StuckTurn`, `StuckForever`,
  `NoCallOnceStuck`). The pending branch never stores a new number. It calls the
  model only with a finite stored number. So every later message gets a fixed
  re-prompt and the state stays the same. This includes the digits the
  re-prompt asks for, such as "1, 4, 5", and a "yes" (`YesWithoutNumberReprompts`).
  The dialogue leaves the state only if the caller sends back something
  other than what the response returned.
- The handler neither rejects empty input nor catches failures of the model
  call.

## Model

| member | source | states |
|---|---|---|
| Text.Trim | api/chat.js:82 | `message.trim()` is never longer than the message and has no whitespace at either end |
| Text.TrimStartSpec | api/chat.js:82 | the leading part `trim` drops is all whitespace, and what remains is a suffix that does not start with whitespace |
| Text.TrimEndSpec | api/chat.js:82 | the trailing part `trim` drops is all whitespace, and what remains is a prefix that does not end with whitespace |
| Text.TrimSpec | api/chat.js:82 | `message.trim()` is a contiguous slice of the message with only whitespace around it and no whitespace at either end |
| Text.TrimIdempotent | api/chat.js:38-46 | trimming the already trimmed text again, as `isYes`/`isNo`/`isLoose` do, changes nothing |
| Text.SkipSpaces | api/chat.js:45 | `\s*` consumes a run of whitespace and stops at the end or at a non-whitespace character |
| Decimal.DigitsValue | api/chat.js:31 | `Number` of a digit string of length n is below 10^n |
| Decimal.NatToString | api/chat.js:143 | the rendering of `${num}` is a non-empty digit string without leading zeros whose value is the number, with exactly as many digits as the number has |
| Decimal.IntToString | api/chat.js:115 | the rendering of `${heardNumber}` reads back as the number, with a leading minus sign for negative numbers |
| Decimal.IntToStringInjective | api/chat.js:115 | two numbers that render the same are equal |
| Decimal.NatToStringOfDigits | api/chat.js:31 | a digit string without a leading zero is the rendering of its own value |
| Numeric.FindPair | api/chat.js:30 | finds the leftmost index where two adjacent digits start, or reports that there is none |
| Numeric.MatchEnd | api/chat.js:30 | `\d{2,3}` takes a third digit exactly when one follows the pair |
| Numeric.ExtractNumeric | api/chat.js:29-32 | the result is null exactly when the text has no two adjacent ASCII digits; otherwise it is in 0..999 and is the value of a leftmost greedy match of `\d{2,3}` |
| Numeric.ExtractNumericIsLeftmostMatch | api/chat.js:29-32 | the result is the value of the leftmost match, greedy up to three digits |
| Numeric.ExtractEmbedded | api/chat.js:29-32 | two or three digits with no digit pair before them and no digit right after them are read back as their value |
| Numeric.ExtractGreedy | api/chat.js:30-31 | "1234" gives 123 |
| Numeric.ExtractLeadingZero | api/chat.js:30-31 | "05" gives 5 |
| Numeric.ExtractSkipsLoneDigit | api/chat.js:30-31 | "a1b23" gives 23: a single digit is no match |
| Numeric.ExtractNoPair | api/chat.js:30-31 | "1 2 3" gives null |
| Answers.AnswersIgnoreTrim | api/chat.js:38-46 | each answer test gives the same verdict on the trimmed message as on the raw one |
| Answers.LooseIsSyllableOrPhrase | api/chat.js:44-46 | text is loose exactly when it contains 응, or 맞는 것 같아 with optional whitespace between the words, so the `응\s*맞아` alternative adds nothing |
| Answers.IsYes | api/chat.js:38-40 | an exact "yes" is never also a "no" and never loose, so testing `isLoose` and `isNo` first cannot hide it, and it holds no number |
| Answers.IsNo | api/chat.js:41-43 | an exact "no" is never loose, so testing `isLoose` first cannot hide it, and it holds no number |
| Answers.IsLoose | api/chat.js:44-46 | the trimmed text is loose exactly when it contains 응, or 맞는 것 같아 with optional whitespace between the words |
| Answers.TokenIsNotLoose | api/chat.js:38-46 | no exact "yes" or "no" token has a loose match at any position |
| Answers.TokenHasNoNumber | api/chat.js:29-43 | no exact "yes" or "no" token holds two adjacent digits |
| Answers.VagueAgreementExamples | api/chat.js:39-45 | "응" and "응 맞아" are loose and not "yes", although the second contains 맞아 |
| Answers.VaguePhraseExample | api/chat.js:39-45 | "맞는 것 같아요" is loose and not "yes" |
| Answers.PlainYesExample | api/chat.js:38-40 | "맞아" is "yes" |
| Answers.PlainNoExample | api/chat.js:41-43 | "아니야" is "no" |
| Answers.PaddedYesExample | api/chat.js:38-40 | " 네\n" is "yes": whitespace around the token is allowed |
| Answers.RepeatedYesExample | api/chat.js:38-40 | "네네" is not "yes": the match is exact |
| Answers.ExtendedNoExample | api/chat.js:41-43 | "아니요" is not "no" |
| Thanks.StripThanks | api/chat.js:34-36 | the reply never gets longer |
| Thanks.StripThanksOnlyDeletes | api/chat.js:34-36 | the result is the reply with characters deleted, in their original order |
| Thanks.StripThanksKeepsPlainText | api/chat.js:34-36 | a reply containing neither phrase is returned unchanged |
| Thanks.StripThanksShortens | api/chat.js:34-36 | a reply containing either phrase gets strictly shorter |
| Thanks.StripThanksChangesIffThanks | api/chat.js:34-36 | the reply is unchanged exactly when it contains neither phrase |
| Thanks.StripThanksDropsLeadingGamsa | api/chat.js:34-36 | a leading 감사합니다 is deleted and the rest is stripped as if it stood alone |
| Thanks.StripThanksDropsLeadingGomawo | api/chat.js:34-36 | a leading 고마워요 is deleted and the rest is stripped as if it stood alone |
| Thanks.StripThanksKeepsBlock | api/chat.js:34-36 | a block in which no phrase starts is kept verbatim and stripping continues after it; with the two lemmas above this fixes the output of the single left-to-right pass |
| Thanks.LeadingThanksExample | api/chat.js:34-36 | "감사합니다 좋아요" becomes " 좋아요" |
| Thanks.StripThanksNotIdempotent | api/chat.js:34-36 | one pass turns "감사감사합니다합니다" into "감사합니다", which a second pass removes |
| Dialogue.Step | api/chat.js:76-162 | `needConfirm` is true exactly when no model call is made; a call always clears the number; a stored finite number is either kept from the request or is the number extracted while idle |
| Dialogue.Respond | api/chat.js:88-162 | the response carries the outcome's state; after a call, the reply is the model's text with characters deleted, unchanged if it has no thanking phrase |
| Dialogue.Handle | api/chat.js:72-163 | a reply that keeps the confirmation pending is one of the fixed texts or the echo of the stored number; any other reply is the model's text with parts deleted and stores nothing; a stored number was sent back by the caller or read from this message; an idle message with no number is answered by the model's text |
| Dialogue.HeardReply | api/chat.js:143-144 | the echo "제가 이렇게 들었어요: n…" of a two- or three-digit number reads back as that number |
| Dialogue.ConfirmedPrompt | api/chat.js:114-116 | the explanation prompt of a two- or three-digit number reads back as that number |
| Dialogue.ModelCalledOnlyOnExactYes | api/chat.js:105-127 | while pending, the model is called exactly when the answer is an exact "yes" and the stored number is finite; the call then carries that number's prompt and the state returns to idle |
| Dialogue.AmbiguousAnswerReprompts | api/chat.js:88-95 | while pending, loose or unrecognised answers get the fixed "맞으면 '맞아'…" re-prompt, keep the stored number and make no call |
| Dialogue.NewNumberWhilePendingReprompts | api/chat.js:130-134 | while pending, a message containing a number gets the generic re-prompt and keeps the old number |
| Dialogue.DenialClearsNumber | api/chat.js:97-103 | while pending, an exact "no" asks for the digits one by one, stays pending and forgets the number |
| Dialogue.YesWithoutNumberReprompts | api/chat.js:105-112 | while pending, an exact "yes" with a null or non-finite number asks for the number again, stays pending, clears it and makes no call |
| Dialogue.RepromptIsStable | api/chat.js:88-135 | repeating a re-prompted message from the returned state gives the same re-prompt and state |
| Dialogue.IdleTurn | api/chat.js:140-162 | when not pending, a message with a digit pair gets the echo of its extracted number, becomes pending and stores exactly that number, making no call; otherwise the trimmed text goes to the model and the state is idle |
| Dialogue.IdleWithoutPairGoesToModel | api/chat.js:140-156 | while idle, "혈당 5", "1, 4, 5", full-width "１４５" and "응" all go to the model unconfirmed |
| Dialogue.ConfirmedPromptInjective | api/chat.js:114-116 | different numbers give different explanation prompts |
| Dialogue.EveryCallIsConfirmedOrNumberFreeStep | api/chat.js:88-162 | every model call of a turn is either the prompt for the stored finite number after an exact "yes", or, when idle, the trimmed message, which has no two adjacent ASCII digits |
| Dialogue.StateAfter | api/chat.js:76-80 | in a dialogue that starts idle, a stored finite number only exists while a confirmation is pending |
| Dialogue.StuckTurn | api/chat.js:88-135 | pending with a null or non-finite number, every message gets a fixed re-prompt and the state stays pending with no finite number |
| Dialogue.StuckForever | api/chat.js:88-135 | once a dialogue is pending with no finite number, it stays so after any further messages |
| Dialogue.NoCallOnceStuck | api/chat.js:88-135 | once a dialogue is pending with no finite number, no later message reaches the model |
| Dialogue.DenialScenario | api/chat.js:97-103 | "공복혈당 145" followed by "아니야" leaves the dialogue pending with no number |
| Dialogue.StoredNumberWasHeard | api/chat.js:140-147 | in a dialogue that starts idle, a stored number was extracted from one of the user's messages |
| Dialogue.StoredNumberWasLastEchoed | api/chat.js:88-147 | in a dialogue that starts idle, a stored number was shown by an idle turn's echo, and every turn since answered with the fixed re-prompt and kept it |
| Dialogue.EveryCallIsConfirmedOrNumberFree | api/chat.js:88-162 | in a dialogue that starts idle, every model call either explains, after an exact "yes", the number the last echo showed and every turn since kept (read from an earlier message, not necessarily the latest one with a number), or carries a message with no two adjacent ASCII digits |
| Dialogue.MisheardCorrectionScenario | api/chat.js:105-134 | after "146" is echoed, "145" only re-prompts and keeps 146, and "맞아" then asks the model about 146 |
| Dialogue.ConfirmationRoundTrip | api/chat.js:105-147 | a number heard while idle is echoed and stored, and an exact "yes" on the next turn sends exactly that number to the model and returns to idle |
| Dialogue.SpokenReadingScenario | api/chat.js:140-147 | "공복혈당 145" while idle echoes 145 and stores it |
| Dialogue.ConfirmedReadingScenario | api/chat.js:105-127 | "맞아" with 145 stored calls the model about 145 and returns to idle |
| Dialogue.VagueReadingScenario | api/chat.js:88-95 | "응" with 145 stored re-prompts, keeps 145 and makes no call |
| Dialogue.LostReadingScenario | api/chat.js:105-112 | "맞아" with no stored number asks for it again and makes no call |

## Left out

- CORS headers, `sendResponse`, the OPTIONS and 405 method checks (api/chat.js:4-14, 73-74): HTTP plumbing with no bearing on the dialogue.
- The network request inside `callOpenAI` (api/chat.js:51-67). A call is the action `CallModel(messages)`, and its returned text is an arbitrary string given to `Respond`. That string may be empty, as `content || ""` allows. A failed request rejects the handler's promise with no response, and that is not modelled.
- A `message` that is not a string, where `trim` would throw, and JavaScript's type coercion in general. `message` is a string, with a missing one read as "". `pendingNumericConfirm` is the boolean "was exactly `true`".
- Fractional values of `heardNumber`. A finite number is an integer here. Every other non-null value that `Number.isFinite` rejects (NaN, Infinity, strings, booleans) is the single value `NotFinite`. It is echoed back as `NotFinite`, not as the caller's exact value.
- Decimal.IntToString: renders every integer in plain decimal. JavaScript switches to exponent notation from 10^21 and cannot hold integers beyond 2^53 exactly.
- Dialogue.HeardReply: the read-back is stated only for numbers of two or three digits. A number read from "00" to "09" is stored as one digit, and its echo shows that single digit, which `extractNumeric` would not read back.
- Dialogue.ConfirmedPrompt: the read-back is stated only for numbers of two or three digits, for the same reason. `ConfirmedPromptInjective` covers every integer.
- UTF-16: characters are Unicode scalar values, not UTF-16 code units. The handler's patterns only involve Basic Multilingual Plane characters, so every match agrees, but lengths differ for characters outside that plane.
- The `i` flag of the answer patterns: Hangul has no case, so it changes nothing.
- The persona and prompt wording are kept as constants. Only the number inside the prompt is reasoned about.
- harudonghaeng-ai-proxy/api/chat.js and api/whisper.js are not part of this model. The first only picks one of three system prompts by `mode`. The second forwards audio to a transcription service.
