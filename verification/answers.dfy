/**
 * How the handler classifies a reply to its confirmation question:
 * `isYes` and `isNo` accept one whole token after trimming, `isLoose`
 * looks for vague agreement anywhere in the text.
 *
 * The patterns carry the `i` flag, which changes nothing here: Hangul
 * syllables have no case.
 */
module Answers {
  import opened Wrappers
  import opened Text
  import opened Numeric

  /** The exact affirmative answers, `^(맞아|네|예)$`. */
  const YesTokens: set<string> := {"맞아", "네", "예"}

  /** The exact negative answers, `^(아니야|아니|틀려)$`. There is no "다시". */
  const NoTokens: set<string> := {"아니야", "아니", "틀려"}

  /** `isYes`. An exact "yes" is never also a "no", never loose, and holds
      no number, so the order of the handler's tests cannot hide it. */
  predicate IsYes(t: string)
    ensures IsYes(t) ==> !IsNo(t) && !IsLoose(t) && ExtractNumeric(Trim(t)) == None
  {
    var s := Trim(t);
    if s in YesTokens then
      TokenIsNotLoose(s);
      TokenHasNoNumber(s);
      true
    else false
  }

  /** `isNo`. An exact "no" is never loose and holds no number. */
  predicate IsNo(t: string)
    ensures IsNo(t) ==> !IsLoose(t) && ExtractNumeric(Trim(t)) == None
  {
    var s := Trim(t);
    if s in NoTokens then
      TokenIsNotLoose(s);
      TokenHasNoNumber(s);
      true
    else false
  }

  /** One of the three alternatives of `(응\s*맞아|응|맞는\s*것\s*같아)`
      matches at index `i`. */
  predicate LooseAt(s: string, i: nat) {
    || MatchWordsAt(s, i, ["응", "맞아"])
    || MatchWordsAt(s, i, ["응"])
    || MatchWordsAt(s, i, ["맞는", "것", "같아"])
  }

  /** The loose pattern matches somewhere in `s`. */
  predicate LooseIn(s: string) {
    exists i: nat | i <= |s| :: LooseAt(s, i)
  }

  /** `isLoose`: the loose pattern matches somewhere in the trimmed text,
      which happens exactly when that text contains "응", or "맞는 것 같아"
      with any whitespace between the words. */
  predicate IsLoose(t: string)
    ensures IsLoose(t) <==> Contains(Trim(t), "응") || PhraseIn(Trim(t))
  {
    LooseIsSyllableOrPhrase(Trim(t));
    LooseIn(Trim(t))
  }

  /** Trimming before asking changes no answer: the handler trims the message
      and each test trims it again. */
  lemma AnswersIgnoreTrim(t: string)
    ensures IsYes(Trim(t)) == IsYes(t)
    ensures IsNo(Trim(t)) == IsNo(t)
    ensures IsLoose(Trim(t)) == IsLoose(t)
  {
    TrimIdempotent(t);
  }

  /** A loose match that is not the "맞는 것 같아" alternative starts with "응". */
  lemma LooseAtSyllable(s: string, i: nat)
    requires LooseAt(s, i) && !MatchWordsAt(s, i, ["맞는", "것", "같아"])
    ensures PrefixAt(s, i, "응")
  {
    if MatchWordsAt(s, i, ["응", "맞아"]) {
      assert ["응", "맞아"][0] == "응";
    }
  }

  /** A loose match starts at "응" or at "맞는". */
  lemma LooseAtStart(s: string, i: nat)
    requires LooseAt(s, i)
    ensures i < |s| && (s[i] == '응' || (i + 1 < |s| && s[i] == '맞' && s[i + 1] == '는'))
  {
    if MatchWordsAt(s, i, ["맞는", "것", "같아"]) {
      assert ["맞는", "것", "같아"][0] == "맞는";
      assert s[i..i + 2] == "맞는";
      assert s[i] == s[i..i + 2][0] && s[i + 1] == s[i..i + 2][1];
    } else {
      LooseAtSyllable(s, i);
      assert s[i] == s[i..i + 1][0];
    }
  }

  /** The phrase "맞는 것 같아" matches somewhere in `s`. */
  predicate PhraseIn(s: string) {
    exists i: nat | i <= |s| :: MatchWordsAt(s, i, ["맞는", "것", "같아"])
  }

  lemma LooseIsSyllableOrPhraseOnly(s: string)
    requires LooseIn(s)
    ensures Contains(s, "응") || PhraseIn(s)
  {
    var i: nat :| i <= |s| && LooseAt(s, i);
    if !MatchWordsAt(s, i, ["맞는", "것", "같아"]) {
      LooseAtSyllable(s, i);
      assert Contains(s, "응");
    }
  }

  lemma SyllableOrPhraseIsLoose(s: string)
    requires Contains(s, "응") || PhraseIn(s)
    ensures LooseIn(s)
  {
    if Contains(s, "응") {
      var i :| 0 <= i <= |s| - 1 && PrefixAt(s, i, "응");
      assert MatchWordsAt(s, i, ["응"]);
      assert LooseAt(s, i);
    } else {
      var i: nat :| i <= |s| && MatchWordsAt(s, i, ["맞는", "것", "같아"]);
      assert LooseAt(s, i);
    }
  }

  /** The first alternative of the loose pattern is subsumed by the second:
      text is loose exactly when it contains "응", or "맞는 것 같아" with any
      whitespace between the words. */
  lemma LooseIsSyllableOrPhrase(s: string)
    ensures LooseIn(s) <==> Contains(s, "응") || PhraseIn(s)
  {
    if LooseIn(s) {
      LooseIsSyllableOrPhraseOnly(s);
    }
    if Contains(s, "응") || PhraseIn(s) {
      SyllableOrPhraseIsLoose(s);
    }
  }

  /** No exact token contains "응" or "맞는". */
  lemma TokenIsNotLoose(s: string)
    requires s in YesTokens || s in NoTokens
    ensures forall i: nat | i <= |s| :: !LooseAt(s, i)
  {
    forall i: nat | i <= |s|
      ensures !LooseAt(s, i)
    {
      if LooseAt(s, i) {
        LooseAtStart(s, i);
        assert false;
      }
    }
  }

  /** No exact answer contains a digit. */
  lemma TokenHasNoNumber(s: string)
    requires s in YesTokens || s in NoTokens
    ensures ExtractNumeric(s) == None
  {
    assert forall k :: !PairAt(s, k);
  }

  /** Vague agreement is loose and is not an exact "yes", even when it
      contains one. */
  lemma VagueAgreementExamples()
    ensures IsLoose("응") && !IsYes("응")
    ensures IsLoose("응 맞아") && !IsYes("응 맞아")
  {
    TrimOfTrimmed("응");
    assert MatchWordsAt("응", 0, ["응"]);
    assert LooseAt("응", 0);
    TrimOfTrimmed("응 맞아");
    assert MatchWordsAt("응 맞아", 0, ["응"]);
    assert LooseAt("응 맞아", 0);
  }

  lemma VaguePhraseExample()
    ensures IsLoose("맞는 것 같아요") && !IsYes("맞는 것 같아요")
  {
    var s := "맞는 것 같아요";
    TrimOfTrimmed(s);
    assert SkipSpaces(s, 2) == 3 && SkipSpaces(s, 4) == 5;
    assert MatchWordsAt(s, 5, ["같아"]);
    assert MatchWordsAt(s, 3, ["것", "같아"]);
    assert LooseAt(s, 0);
  }

  lemma PlainYesExample()
    ensures IsYes("맞아")
  {
    TrimOfTrimmed("맞아");
  }

  lemma PlainNoExample()
    ensures IsNo("아니야")
  {
    TrimOfTrimmed("아니야");
  }

  /** An exact answer may be surrounded by whitespace. */
  lemma PaddedYesExample()
    ensures IsYes(" 네\n")
  {
    assert TrimStart(" 네\n") == "네\n";
    assert TrimEnd("네\n") == "네";
  }

  /** A repeated or extended token is not an exact answer. */
  lemma RepeatedYesExample()
    ensures !IsYes("네네")
  {
    TrimOfTrimmed("네네");
    assert "네네" !in YesTokens;
  }

  lemma ExtendedNoExample()
    ensures !IsNo("아니요")
  {
    TrimOfTrimmed("아니요");
    assert "아니요" !in NoTokens;
  }
}
