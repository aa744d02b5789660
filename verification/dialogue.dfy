/**
 * The request handler's decision: from the message and the confirmation
 * state the caller sends back each turn, choose the reply (a fixed
 * re-prompt, or a call to the language model), the next `needConfirm` flag
 * and the next `heardNumber`.
 *
 * The language model is a collaborator: a call is recorded as the
 * `CallModel` action carrying the messages sent, and the text it returns is
 * a parameter of `Handle`.
 */
module Dialogue {
  import opened Wrappers
  import opened Text
  import opened Decimal
  import opened Numeric
  import opened Answers
  import opened Thanks

  /** The `heardNumber` field: `null` (also when absent), a finite number,
      or any other value, which `Number.isFinite` rejects. */
  datatype Heard = Null | Finite(value: int) | NotFinite

  datatype Role = System | User

  datatype ChatMessage = ChatMessage(role: Role, content: string)

  /** A fixed reply, or one call to the language model with these messages. */
  datatype Action = Say(text: string) | CallModel(messages: seq<ChatMessage>)

  /** What one turn decides. */
  datatype Outcome = Outcome(action: Action, needConfirm: bool, heardNumber: Heard)

  /** The request body; `pendingNumericConfirm` is true only when the caller
      sent the boolean `true`. */
  datatype Request = Request(message: string, pendingNumericConfirm: bool, heardNumber: Heard)

  /** The response body. */
  datatype Response = Response(reply: string, needConfirm: bool, heardNumber: Heard)

  const SystemPrompt: string :=
    "\n당신은 '하루동행' 시니어 건강 도우미입니다.\n간호사처럼 차분하고 단정하지 않습니다.\n"
    + "수치 하나만으로 판단하지 않습니다.\n항상 2~3문장, 질문은 1개만 합니다.\n"

  /** Asks for an exact "yes" or "no". */
  const ConfirmInstruction: string := "맞으면 '맞아', 아니면 '아니야'라고 말씀해 주세요."

  /** After a "no": asks for the number digit by digit. */
  const RestateDigits: string := "숫자를 다시 한 자리씩 말씀해 주세요. 예: 1, 4, 5"

  /** After a "yes" with no usable number: asks for the number again. */
  const RestateOnce: string := "숫자를 한 번만 다시 말씀해 주세요."

  const HeardPrefix: string := "제가 이렇게 들었어요: "

  const EchoTail: string := "\n" + ConfirmInstruction

  /** The question that echoes a number just heard. A number of two or three
      digits reads back from it as that number: the user hears exactly the
      value that is stored. */
  function HeardReply(n: nat): (r: string)
    ensures 10 <= n <= 999 ==> ExtractNumeric(r) == Some(n)
  {
    var r := HeardPrefix + NatToString(n) + EchoTail;
    if 10 <= n <= 999 then
      HeardPrefixHasNoPair();
      RenderedWidth(n);
      ExtractEmbedded(HeardPrefix, NatToString(n), EchoTail);
      r
    else r
  }

  const PromptHead: string := "공복 혈당 "
  const PromptTail: string := "에 대해 " + "한 번의 수치로 단정하지 말고 2~3문장으로 설명하고 질문 1개만 해 주세요."

  /** The user prompt that asks the model to explain a confirmed number. A
      number of two or three digits reads back from it as that number. */
  function ConfirmedPrompt(n: int): (r: string)
    ensures 10 <= n <= 999 ==> ExtractNumeric(r) == Some(n)
  {
    var r := PromptHead + IntToString(n) + PromptTail;
    if 10 <= n <= 999 then
      PromptHeadHasNoPair();
      RenderedWidth(n);
      PromptTailStartsWithLetter();
      ExtractEmbedded(PromptHead, IntToString(n), PromptTail);
      r
    else r
  }

  /** The messages of one model call: the persona, then the user's text. */
  function Conversation(userText: string): seq<ChatMessage> {
    [ChatMessage(System, SystemPrompt), ChatMessage(User, userText)]
  }

  /** One turn of the handler. */
  function Step(pending: bool, heard: Heard, message: string): (o: Outcome)
    ensures o.needConfirm <==> o.action.Say?
    ensures o.action.CallModel? ==> o.heardNumber == Null
    ensures o.heardNumber.Finite? ==>
      o.heardNumber == heard || (!pending && ExtractNumeric(Trim(message)) == Some(o.heardNumber.value))
  {
    var text := Trim(message);
    var num := ExtractNumeric(text);
    if pending then
      if IsLoose(text) then Outcome(Say(ConfirmInstruction), true, heard)
      else if IsNo(text) then Outcome(Say(RestateDigits), true, Null)
      else if IsYes(text) then
        if !heard.Finite? then Outcome(Say(RestateOnce), true, Null)
        else Outcome(CallModel(Conversation(ConfirmedPrompt(heard.value))), false, Null)
      else Outcome(Say(ConfirmInstruction), true, heard)
    else if num.Some? then Outcome(Say(HeardReply(num.value)), true, Finite(num.value))
    else Outcome(CallModel(Conversation(text)), false, Null)
  }

  /** The response for an outcome, given the text the model returned if it
      was called. */
  function Respond(o: Outcome, modelText: string): (r: Response)
    ensures r.needConfirm == o.needConfirm && r.heardNumber == o.heardNumber
    ensures o.action.Say? ==> r.reply == o.action.text
    ensures o.action.CallModel? ==> |r.reply| <= |modelText| && IsSubsequence(r.reply, modelText)
    ensures o.action.CallModel? && !ContainsThanks(modelText) ==> r.reply == modelText
  {
    match o.action
    case Say(text) => Response(text, o.needConfirm, o.heardNumber)
    case CallModel(_) =>
      StripThanksOnlyDeletes(modelText);
      StripThanksChangesIffThanks(modelText);
      Response(StripThanks(modelText), o.needConfirm, o.heardNumber)
  }

  /** The fixed replies a turn may give instead of calling the model. */
  predicate IsFixedReply(reply: string, heard: Heard) {
    || reply == ConfirmInstruction || reply == RestateDigits || reply == RestateOnce
    || (heard.Finite? && 0 <= heard.value && reply == HeardReply(heard.value))
  }

  /** The handler for a POST request. A reply that keeps the confirmation
      pending is one of the fixed texts; any other reply is the model's text
      with parts deleted, and then nothing is stored. A stored number is the
      one the caller sent back or the one read from this message, and a
      message with no number sent while idle is answered by the model. */
  function Handle(req: Request, modelText: string): (r: Response)
    ensures r.needConfirm ==> IsFixedReply(r.reply, r.heardNumber)
    ensures !r.needConfirm ==> r.heardNumber == Null && IsSubsequence(r.reply, modelText)
    ensures r.heardNumber.Finite? ==>
      r.heardNumber == req.heardNumber || ExtractNumeric(Trim(req.message)) == Some(r.heardNumber.value)
    ensures !req.pendingNumericConfirm && ExtractNumeric(Trim(req.message)) == None && !ContainsThanks(modelText)
      ==> r == Response(modelText, false, Null)
  {
    Respond(Step(req.pendingNumericConfirm, req.heardNumber, req.message), modelText)
  }

  // ---------------------------------------------------------------------
  // While a confirmation is pending
  // ---------------------------------------------------------------------

  /** The model is called while pending exactly when the answer is an exact
      "yes" and the stored number is finite, and then the prompt carries that
      number and the state returns to idle. */
  lemma ModelCalledOnlyOnExactYes(h: Heard, m: string)
    ensures Step(true, h, m).action.CallModel? <==> IsYes(m) && h.Finite?
    ensures IsYes(m) && h.Finite? ==>
      Step(true, h, m) == Outcome(CallModel(Conversation(ConfirmedPrompt(h.value))), false, Null)
  {
    AnswersIgnoreTrim(m);
  }

  /** Vague agreement, and anything that is neither an exact "yes" nor an
      exact "no", gets the fixed re-prompt and keeps the stored number. */
  lemma AmbiguousAnswerReprompts(h: Heard, m: string)
    requires IsLoose(m) || (!IsYes(m) && !IsNo(m))
    ensures Step(true, h, m) == Outcome(Say(ConfirmInstruction), true, h)
  {
    AnswersIgnoreTrim(m);
  }

  /** A new number while pending does not start a new confirmation: it gets
      the fixed re-prompt and the old number is kept. */
  lemma NewNumberWhilePendingReprompts(h: Heard, m: string)
    requires ExtractNumeric(Trim(m)).Some?
    ensures Step(true, h, m) == Outcome(Say(ConfirmInstruction), true, h)
  {
    if Trim(m) in YesTokens || Trim(m) in NoTokens {
      TokenHasNoNumber(Trim(m));
    }
    AmbiguousAnswerReprompts(h, m);
  }

  /** An exact "no" asks for the digits and forgets the stored number. */
  lemma DenialClearsNumber(h: Heard, m: string)
    requires IsNo(m)
    ensures Step(true, h, m) == Outcome(Say(RestateDigits), true, Null)
  {
    AnswersIgnoreTrim(m);
  }

  /** An exact "yes" without a finite stored number asks for the number
      again and makes no call. */
  lemma YesWithoutNumberReprompts(h: Heard, m: string)
    requires IsYes(m) && !h.Finite?
    ensures Step(true, h, m) == Outcome(Say(RestateOnce), true, Null)
  {
    AnswersIgnoreTrim(m);
  }

  /** Repeating a message that got a re-prompt, from the state that re-prompt
      returned, gets the same re-prompt and the same state again. */
  lemma RepromptIsStable(h: Heard, m: string)
    requires Step(true, h, m).action.Say?
    ensures var o := Step(true, h, m); Step(o.needConfirm, o.heardNumber, m) == o
  {
    AnswersIgnoreTrim(m);
  }

  // ---------------------------------------------------------------------
  // While idle
  // ---------------------------------------------------------------------

  /** When idle, a message with a number starts a confirmation of the value
      of its first match, with no call; a message without one goes to the
      model as trimmed text. */
  lemma IdleTurn(h: Heard, m: string)
    ensures var o := Step(false, h, m);
      && (o.needConfirm <==> exists k :: PairAt(Trim(m), k))
      && (o.needConfirm ==> o.heardNumber.Finite? && 0 <= o.heardNumber.value <= 999
                            && o.action == Say(HeardReply(o.heardNumber.value)))
      && (o.needConfirm ==> ExtractNumeric(Trim(m)) == Some(o.heardNumber.value))
      && (!o.needConfirm ==> o.action == CallModel(Conversation(Trim(m))) && o.heardNumber == Null)
  {
  }

  /** While idle, anything without two adjacent ASCII digits goes to the
      model: a lone digit, digits separated by commas, full-width digits,
      and vague agreement alike. */
  lemma IdleWithoutPairGoesToModel()
    ensures Step(false, Null, "혈당 5").action == CallModel(Conversation("혈당 5"))
    ensures Step(false, Null, "1, 4, 5").action == CallModel(Conversation("1, 4, 5"))
    ensures Step(false, Null, "\U{FF11}\U{FF14}\U{FF15}").action
      == CallModel(Conversation("\U{FF11}\U{FF14}\U{FF15}"))
    ensures Step(false, Null, "응").action == CallModel(Conversation("응"))
  {
    TrimOfTrimmed("혈당 5");
    assert forall k :: !PairAt("혈당 5", k);
    TrimOfTrimmed("1, 4, 5");
    assert forall k :: !PairAt("1, 4, 5", k);
    TrimOfTrimmed("\U{FF11}\U{FF14}\U{FF15}");
    assert forall k :: !PairAt("\U{FF11}\U{FF14}\U{FF15}", k);
    TrimOfTrimmed("응");
    assert forall k :: !PairAt("응", k);
  }

  /** No pair of digits occurs in the echo's prefix. */
  lemma HeardPrefixHasNoPair()
    ensures forall k :: !PairAt(HeardPrefix, k)
  {
  }

  /** No pair of digits occurs in the prompt's head. */
  lemma PromptHeadHasNoPair()
    ensures forall k :: !PairAt(PromptHead, k)
  {
  }

  lemma PromptTailStartsWithLetter()
    ensures |PromptTail| > 0 && !IsDigit(PromptTail[0])
  {
  }

  /** A number of two or three digits renders as two or three digits. */
  lemma RenderedWidth(n: nat)
    requires 10 <= n <= 999
    ensures 2 <= |NatToString(n)| <= 3
  {
    var r := NatToString(n);
    assert Pow10(1) == 10 && Pow10(2) == 100 && Pow10(3) == 1000;
    if |r| > 3 {
      assert Pow10(|r| - 1) >= Pow10(3) by {
        Pow10Monotone(3, |r| - 1);
      }
    }
  }

  lemma {:induction false} Pow10Monotone(a: nat, b: nat)
    requires a <= b
    ensures Pow10(a) <= Pow10(b)
    decreases b - a
  {
    if a < b {
      Pow10Monotone(a, b - 1);
    }
  }

  /** Different numbers give different explanation prompts. */
  lemma ConfirmedPromptInjective(a: int, b: int)
    requires ConfirmedPrompt(a) == ConfirmedPrompt(b)
    ensures a == b
  {
    var pa := ConfirmedPrompt(a);
    var la := |PromptHead| + |IntToString(a)|;
    assert |IntToString(a)| == |IntToString(b)|;
    assert pa[|PromptHead|..la] == IntToString(a);
    assert ConfirmedPrompt(b)[|PromptHead|..la] == IntToString(b);
    IntToStringInjective(a, b);
  }

  /** Every model call of one turn: while pending, the explanation of the
      stored finite number after an exact "yes"; while idle, the trimmed
      message, and only when it holds no number. */
  lemma EveryCallIsConfirmedOrNumberFreeStep(pending: bool, h: Heard, m: string)
    requires Step(pending, h, m).action.CallModel?
    ensures pending ==>
      && IsYes(m) && h.Finite?
      && Step(pending, h, m).action.messages == Conversation(ConfirmedPrompt(h.value))
    ensures !pending ==>
      && ExtractNumeric(Trim(m)) == None
      && Step(pending, h, m).action.messages == Conversation(Trim(m))
  {
    if pending {
      ModelCalledOnlyOnExactYes(h, m);
    }
  }

  // ---------------------------------------------------------------------
  // Whole dialogues
  // ---------------------------------------------------------------------

  /** The confirmation state the caller sends back each turn. */
  datatype State = State(pending: bool, heard: Heard)

  const Idle: State := State(false, Null)

  /** The state after each message in turn, starting idle, when the caller
      sends back exactly what each response returned. */
  function StateAfter(msgs: seq<string>): (s: State)
    ensures s.pending ==> |msgs| > 0
    ensures s.heard.Finite? ==> s.pending
    decreases |msgs|
  {
    if |msgs| == 0 then Idle
    else
      var before := StateAfter(msgs[..|msgs| - 1]);
      var o := Step(before.pending, before.heard, msgs[|msgs| - 1]);
      State(o.needConfirm, o.heardNumber)
  }

  /** Pending with no finite number stored: where an exact "no", or an exact
      "yes" with nothing stored, leaves the dialogue. */
  predicate Stuck(st: State) {
    st.pending && !st.heard.Finite?
  }

  /** From a stuck state every message gets a fixed re-prompt and the state
      stays stuck: the pending branch never stores a number and calls the
      model only with a finite one, so a reading restated as "1, 4, 5", or
      any other, is never heard. */
  lemma StuckTurn(h: Heard, m: string)
    requires !h.Finite?
    ensures var o := Step(true, h, m);
      o.action.Say? && Stuck(State(o.needConfirm, o.heardNumber))
  {
    AnswersIgnoreTrim(m);
  }

  /** Once stuck, stuck after any further messages. */
  lemma {:induction false} StuckForever(msgs: seq<string>, rest: seq<string>)
    requires Stuck(StateAfter(msgs))
    ensures Stuck(StateAfter(msgs + rest))
    decreases |rest|
  {
    if |rest| > 0 {
      var all := msgs + rest;
      assert all[..|all| - 1] == msgs + rest[..|rest| - 1];
      StuckForever(msgs, rest[..|rest| - 1]);
      StuckTurn(StateAfter(all[..|all| - 1]).heard, all[|all| - 1]);
    } else {
      assert msgs + rest == msgs;
    }
  }

  /** Once stuck, no later message ever reaches the model. */
  lemma NoCallOnceStuck(msgs: seq<string>, rest: seq<string>, m: string)
    requires Stuck(StateAfter(msgs))
    ensures var st := StateAfter(msgs + rest); Step(st.pending, st.heard, m).action.Say?
  {
    StuckForever(msgs, rest);
    StuckTurn(StateAfter(msgs + rest).heard, m);
  }

  /** Hearing 145 and answering "아니야" gets the dialogue stuck. */
  lemma DenialScenario()
    ensures Stuck(StateAfter(["공복혈당 145", "아니야"]))
  {
    var msgs := ["공복혈당 145", "아니야"];
    assert msgs[..1] == ["공복혈당 145"];
    HeardReadingState();
    PlainNoExample();
    DenialClearsNumber(Finite(145), "아니야");
  }

  lemma HeardReadingState()
    ensures StateAfter(["공복혈당 145"]) == State(true, Finite(145))
  {
    assert ["공복혈당 145"][..0] == [];
    SpokenReadingScenario();
  }

  /** A number stored in a dialogue that starts idle was said by the user in
      one of its messages. */
  lemma {:induction false} StoredNumberWasHeard(msgs: seq<string>)
    ensures var s := StateAfter(msgs);
      s.heard.Finite? ==> exists j | 0 <= j < |msgs| :: ExtractNumeric(Trim(msgs[j])) == Some(s.heard.value)
    decreases |msgs|
  {
    if |msgs| > 0 {
      var prefix := msgs[..|msgs| - 1];
      var before := StateAfter(prefix);
      var o := Step(before.pending, before.heard, msgs[|msgs| - 1]);
      if o.heardNumber.Finite? {
        if o.heardNumber == before.heard {
          StoredNumberWasHeard(prefix);
          var j :| 0 <= j < |prefix| && ExtractNumeric(Trim(prefix[j])) == Some(before.heard.value);
          assert prefix[j] == msgs[j];
        } else {
          assert ExtractNumeric(Trim(msgs[|msgs| - 1])) == Some(o.heardNumber.value);
        }
      }
    }
  }

  /** What turn `k` of a dialogue that starts idle decides. */
  function Turn(msgs: seq<string>, k: nat): Outcome
    requires k < |msgs|
  {
    var st := StateAfter(msgs[..k]);
    Step(st.pending, st.heard, msgs[k])
  }

  /** The outcome of every turn of a dialogue that starts idle, in order. */
  function Outcomes(msgs: seq<string>): (os: seq<Outcome>)
    ensures |os| == |msgs|
    decreases |msgs|
  {
    if |msgs| == 0 then []
    else Outcomes(msgs[..|msgs| - 1]) + [Turn(msgs, |msgs| - 1)]
  }

  /** Entry `k` of `Outcomes` is what turn `k` decides, whatever follows it. */
  lemma {:induction false} OutcomeIsTurn(msgs: seq<string>, k: nat)
    requires k < |msgs|
    ensures Outcomes(msgs)[k] == Turn(msgs, k)
    decreases |msgs|
  {
    var last := |msgs| - 1;
    if k < last {
      var prefix := msgs[..last];
      OutcomeIsTurn(prefix, k);
      TurnOfPrefix(msgs, last, k);
    }
  }

  /** The turns of a prefix are the turns of the whole dialogue. */
  lemma TurnOfPrefix(msgs: seq<string>, i: nat, k: nat)
    requires k < i <= |msgs|
    ensures Turn(msgs[..i], k) == Turn(msgs, k)
  {
    assert msgs[..i][..k] == msgs[..k];
  }

  /** While pending, a finite number comes out of a turn only from the
      re-prompt that keeps it. */
  lemma PendingKeepsNumberOnlyByReprompt(h: Heard, m: string)
    requires Step(true, h, m).heardNumber.Finite?
    ensures Step(true, h, m) == Outcome(Say(ConfirmInstruction), true, h)
  {
  }

  /** Turn `j` echoed `n` and every later turn kept it with the fixed
      re-prompt. */
  predicate LastEchoedAt(os: seq<Outcome>, j: int, n: int) {
    && 0 <= j < |os| && 0 <= n
    && os[j] == Outcome(Say(HeardReply(n)), true, Finite(n))
    && forall k | j < k < |os| :: os[k] == Outcome(Say(ConfirmInstruction), true, Finite(n))
  }

  lemma LastEchoExtends(os: seq<Outcome>, o: Outcome, j: int, n: int)
    requires LastEchoedAt(os, j, n)
    requires o == Outcome(Say(ConfirmInstruction), true, Finite(n))
    ensures LastEchoedAt(os + [o], j, n)
  {
  }

  /** A number stored in a dialogue that starts idle is the one the last echo
      showed the user: some idle turn answered with `HeardReply` of it, and
      every turn since kept it with the fixed re-prompt. */
  lemma {:induction false} StoredNumberWasLastEchoed(msgs: seq<string>)
    ensures var s := StateAfter(msgs);
      s.heard.Finite? ==> exists j :: LastEchoedAt(Outcomes(msgs), j, s.heard.value)
    decreases |msgs|
  {
    var s := StateAfter(msgs);
    if |msgs| > 0 && s.heard.Finite? {
      var last := |msgs| - 1;
      var before := StateAfter(msgs[..last]);
      var o := Turn(msgs, last);
      assert s == State(o.needConfirm, o.heardNumber);
      assert Outcomes(msgs) == Outcomes(msgs[..last]) + [o];
      if before.pending {
        PendingKeepsNumberOnlyByReprompt(before.heard, msgs[last]);
        StoredNumberWasLastEchoed(msgs[..last]);
        var j :| LastEchoedAt(Outcomes(msgs[..last]), j, s.heard.value);
        LastEchoExtends(Outcomes(msgs[..last]), o, j, s.heard.value);
      } else {
        IdleTurn(before.heard, msgs[last]);
        assert LastEchoedAt(Outcomes(msgs), last, s.heard.value);
      }
    }
  }

  /** Every model call in a dialogue that starts idle is either general
      conversation about a message without two adjacent digits, or the
      explanation of the number the last echo showed the user, kept by every
      turn since and now confirmed with an exact "yes". That number was read
      from an earlier message, but not necessarily the latest one that holds
      a number: a new number while pending is ignored. */
  lemma EveryCallIsConfirmedOrNumberFree(msgs: seq<string>, i: nat)
    requires i < |msgs|
    requires Turn(msgs, i).action.CallModel?
    ensures var s := StateAfter(msgs[..i]);
      var o := Turn(msgs, i);
      && (s.pending ==>
            && IsYes(msgs[i]) && s.heard.Finite?
            && o.action.messages == Conversation(ConfirmedPrompt(s.heard.value))
            && (exists j :: LastEchoedAt(Outcomes(msgs[..i]), j, s.heard.value))
            && exists j | 0 <= j < i :: ExtractNumeric(Trim(msgs[j])) == Some(s.heard.value))
      && (!s.pending ==>
            && ExtractNumeric(Trim(msgs[i])) == None
            && o.action.messages == Conversation(Trim(msgs[i])))
  {
    var s := StateAfter(msgs[..i]);
    EveryCallIsConfirmedOrNumberFreeStep(s.pending, s.heard, msgs[i]);
    if s.pending {
      StoredNumberWasLastEchoed(msgs[..i]);
      StoredNumberWasHeard(msgs[..i]);
      var j :| 0 <= j < i && ExtractNumeric(Trim(msgs[..i][j])) == Some(s.heard.value);
      assert msgs[..i][j] == msgs[j];
    }
  }

  /** A correction while pending is ignored: after "146" is echoed, "145"
      only repeats the question, and "맞아" then explains 146. */
  lemma MisheardCorrectionScenario()
    ensures StateAfter(["146", "145"]) == State(true, Finite(146))
    ensures Step(true, Finite(146), "맞아").action == CallModel(Conversation(ConfirmedPrompt(146)))
  {
    var msgs := ["146", "145"];
    assert msgs[..1] == ["146"];
    HeardCorrectionState();
    CorrectionHasNumber();
    NewNumberWhilePendingReprompts(Finite(146), "145");
    PlainYesExample();
    ModelCalledOnlyOnExactYes(Finite(146), "맞아");
  }

  lemma HeardCorrectionState()
    ensures StateAfter(["146"]) == State(true, Finite(146))
  {
    assert ["146"][..0] == [];
    TrimOfTrimmed("146");
    assert "146"[0..3] == "146";
    assert DigitsValue("146") == 146 by {
      assert "146"[..2] == "14" && "14"[..1] == "1";
    }
    ExtractNumericIsLeftmostMatch("146", 0, 3);
  }

  lemma CorrectionHasNumber()
    ensures ExtractNumeric(Trim("145")).Some?
  {
    TrimOfTrimmed("145");
    assert PairAt("145", 0);
  }

  /** The scenario of a whole confirmation: a number heard while idle is
      echoed, and an exact "yes" on the next turn sends exactly that number
      to the model and returns to idle. */
  lemma ConfirmationRoundTrip(h: Heard, said: string, answer: string, modelText: string, n: nat)
    requires ExtractNumeric(Trim(said)) == Some(n)
    requires IsYes(answer)
    ensures var r1 := Handle(Request(said, false, h), modelText);
      && r1 == Response(HeardReply(n), true, Finite(n))
      && Handle(Request(answer, r1.needConfirm, r1.heardNumber), modelText)
         == Response(StripThanks(modelText), false, Null)
      && Step(r1.needConfirm, r1.heardNumber, answer).action
         == CallModel(Conversation(ConfirmedPrompt(n)))
  {
    ModelCalledOnlyOnExactYes(Finite(n), answer);
  }

  /** A spoken reading of 145 is echoed and stored. */
  lemma SpokenReadingScenario()
    ensures Step(false, Null, "공복혈당 145") == Outcome(Say(HeardReply(145)), true, Finite(145))
  {
    SpokenReadingIs145();
  }

  lemma SpokenReadingIs145()
    ensures ExtractNumeric(Trim("공복혈당 145")) == Some(145)
  {
    SpokenReadingIsTrimmed();
    SpokenReadingReadsAs145();
  }

  lemma SpokenReadingIsTrimmed()
    ensures Trim("공복혈당 145") == "공복혈당 145"
  {
    TrimOfTrimmed("공복혈당 145");
  }

  lemma SpokenReadingReadsAs145()
    ensures ExtractNumeric("공복혈당 145") == Some(145)
  {
    var before := "공복혈당 ";
    assert forall k :: !PairAt(before, k);
    assert DigitsValue("145") == 145 by {
      assert "145"[..2] == "14" && "14"[..1] == "1";
    }
    assert "공복혈당 145" == before + "145" + "";
    ExtractEmbedded(before, "145", "");
  }

  /** "맞아" after hearing 145 asks the model to explain 145. */
  lemma ConfirmedReadingScenario()
    ensures Step(true, Finite(145), "맞아") == Outcome(CallModel(Conversation(ConfirmedPrompt(145))), false, Null)
  {
    PlainYesExample();
    ModelCalledOnlyOnExactYes(Finite(145), "맞아");
  }

  /** "응" after hearing 145 only repeats the question. */
  lemma VagueReadingScenario()
    ensures Step(true, Finite(145), "응") == Outcome(Say(ConfirmInstruction), true, Finite(145))
  {
    VagueAgreementExamples();
    AmbiguousAnswerReprompts(Finite(145), "응");
  }

  /** "맞아" with no stored number asks for the number again. */
  lemma LostReadingScenario()
    ensures Step(true, Null, "맞아") == Outcome(Say(RestateOnce), true, Null)
  {
    PlainYesExample();
    YesWithoutNumberReprompts(Null, "맞아");
  }
}
