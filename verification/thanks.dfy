/**
 * `stripThanks`: one left-to-right pass of `replace(/감사합니다|고마워요/g, "")`
 * over the model's reply.
 */
module Thanks {
  import opened Text

  const Gamsa: string := "감사합니다"
  const Gomawo: string := "고마워요"

  /** Either thanking phrase occurs somewhere in `t`. */
  predicate ContainsThanks(t: string) {
    Contains(t, Gamsa) || Contains(t, Gomawo)
  }

  /** The global replacement: at each position the first alternative is
      tried, then the second; a match is deleted and the scan resumes after
      it, otherwise the character is kept. */
  function StripThanks(t: string): (r: string)
    ensures |r| <= |t|
    decreases |t|
  {
    if |t| == 0 then []
    else if PrefixAt(t, 0, Gamsa) then StripThanks(t[|Gamsa|..])
    else if PrefixAt(t, 0, Gomawo) then StripThanks(t[|Gomawo|..])
    else [t[0]] + StripThanks(t[1..])
  }

  /** `a` is obtained from `b` by deleting characters. */
  ghost predicate IsSubsequence(a: string, b: string)
    decreases |b|
  {
    if |a| == 0 then true
    else if |b| == 0 then false
    else (a[0] == b[0] && IsSubsequence(a[1..], b[1..])) || IsSubsequence(a, b[1..])
  }

  lemma {:induction false} SubsequenceOfSuffix(a: string, b: string, k: nat)
    requires k <= |b| && IsSubsequence(a, b[k..])
    ensures IsSubsequence(a, b)
    decreases k
  {
    if k > 0 {
      assert b[k..] == b[1..][k - 1..];
      SubsequenceOfSuffix(a, b[1..], k - 1);
    }
  }

  /** Stripping only deletes: what is left keeps its order. */
  lemma {:induction false} StripThanksOnlyDeletes(t: string)
    ensures IsSubsequence(StripThanks(t), t)
    decreases |t|
  {
    if |t| == 0 {
    } else if PrefixAt(t, 0, Gamsa) {
      StripThanksOnlyDeletes(t[|Gamsa|..]);
      SubsequenceOfSuffix(StripThanks(t), t, |Gamsa|);
    } else if PrefixAt(t, 0, Gomawo) {
      StripThanksOnlyDeletes(t[|Gomawo|..]);
      SubsequenceOfSuffix(StripThanks(t), t, |Gomawo|);
    } else {
      StripThanksOnlyDeletes(t[1..]);
      assert StripThanks(t)[1..] == StripThanks(t[1..]);
    }
  }

  /** An occurrence after the first character is an occurrence in the tail. */
  lemma ContainsInTail(t: string, pat: string, i: int)
    requires 1 <= i && PrefixAt(t, i, pat)
    ensures Contains(t[1..], pat)
  {
    assert t[1..][i - 1..i - 1 + |pat|] == t[i..i + |pat|];
    assert PrefixAt(t[1..], i - 1, pat);
  }

  /** An occurrence in the tail is an occurrence in the whole. */
  lemma ContainsFromTail(t: string, pat: string)
    requires |t| >= 1 && Contains(t[1..], pat)
    ensures Contains(t, pat)
  {
    var i :| 0 <= i <= |t[1..]| - |pat| && PrefixAt(t[1..], i, pat);
    assert t[1..][i..i + |pat|] == t[i + 1..i + 1 + |pat|];
    assert PrefixAt(t, i + 1, pat);
  }

  /** Text without a thanking phrase is returned unchanged. */
  lemma {:induction false} StripThanksKeepsPlainText(t: string)
    requires !ContainsThanks(t)
    ensures StripThanks(t) == t
    decreases |t|
  {
    if |t| > 0 {
      assert !PrefixAt(t, 0, Gamsa) && !PrefixAt(t, 0, Gomawo);
      if ContainsThanks(t[1..]) {
        if Contains(t[1..], Gamsa) {
          ContainsFromTail(t, Gamsa);
        } else {
          ContainsFromTail(t, Gomawo);
        }
      }
      StripThanksKeepsPlainText(t[1..]);
    }
  }

  /** Text with a thanking phrase always gets shorter. */
  lemma {:induction false} StripThanksShortens(t: string)
    requires ContainsThanks(t)
    ensures |StripThanks(t)| < |t|
    decreases |t|
  {
    if PrefixAt(t, 0, Gamsa) || PrefixAt(t, 0, Gomawo) {
    } else {
      var pat := if Contains(t, Gamsa) then Gamsa else Gomawo;
      var i :| 0 <= i <= |t| - |pat| && PrefixAt(t, i, pat);
      ContainsInTail(t, pat, i);
      StripThanksShortens(t[1..]);
    }
  }

  /** The reply is left alone exactly when it has no thanking phrase. */
  lemma StripThanksChangesIffThanks(t: string)
    ensures StripThanks(t) == t <==> !ContainsThanks(t)
  {
    if ContainsThanks(t) {
      StripThanksShortens(t);
    } else {
      StripThanksKeepsPlainText(t);
    }
  }

  /** A leading "감사합니다" is deleted and the rest is stripped as if it
      stood alone. */
  lemma StripThanksDropsLeadingGamsa(t: string)
    ensures StripThanks(Gamsa + t) == StripThanks(t)
  {
    var s := Gamsa + t;
    assert s[..|Gamsa|] == Gamsa && s[|Gamsa|..] == t;
    assert PrefixAt(s, 0, Gamsa);
  }

  /** A leading "고마워요" is deleted and the rest is stripped as if it
      stood alone. */
  lemma StripThanksDropsLeadingGomawo(t: string)
    ensures StripThanks(Gomawo + t) == StripThanks(t)
  {
    var s := Gomawo + t;
    assert s[..|Gomawo|] == Gomawo && s[|Gomawo|..] == t;
    assert !PrefixAt(s, 0, Gamsa) by {
      if |Gamsa| <= |s| {
        assert s[0..|Gamsa|][0] == s[0] == Gomawo[0] != Gamsa[0];
      }
    }
    assert PrefixAt(s, 0, Gomawo);
  }

  /** No thanking phrase starts in `s` before index `n`. */
  predicate NoThanksBefore(s: string, n: int) {
    forall i | 0 <= i < n :: !PrefixAt(s, i, Gamsa) && !PrefixAt(s, i, Gomawo)
  }

  /** An occurrence in the tail is an occurrence one index further on in
      the whole. */
  lemma PrefixAtFromTail(s: string, i: int, pat: string)
    requires |s| >= 1 && PrefixAt(s[1..], i, pat)
    ensures PrefixAt(s, i + 1, pat)
  {
    assert s[1..][i..i + |pat|] == s[i + 1..i + 1 + |pat|];
  }

  lemma NoThanksBeforeInTail(s: string, n: int)
    requires |s| >= 1 && NoThanksBefore(s, n)
    ensures NoThanksBefore(s[1..], n - 1)
  {
    forall i | 0 <= i < n - 1
      ensures !PrefixAt(s[1..], i, Gamsa) && !PrefixAt(s[1..], i, Gomawo)
    {
      if PrefixAt(s[1..], i, Gamsa) {
        PrefixAtFromTail(s, i, Gamsa);
      }
      if PrefixAt(s[1..], i, Gomawo) {
        PrefixAtFromTail(s, i, Gomawo);
      }
    }
  }

  /** A character where no phrase starts is kept. */
  lemma StripThanksKeepsFirst(s: string)
    requires |s| >= 1 && NoThanksBefore(s, 1)
    ensures StripThanks(s) == [s[0]] + StripThanks(s[1..])
  {
    assert !PrefixAt(s, 0, Gamsa) && !PrefixAt(s, 0, Gomawo);
  }

  /** A block where no phrase starts is kept verbatim, and stripping carries
      on after it: with the two leading-phrase lemmas this pins down the
      single left-to-right pass. */
  lemma {:induction false} StripThanksKeepsBlock(x: string, y: string)
    requires NoThanksBefore(x + y, |x|)
    ensures StripThanks(x + y) == x + StripThanks(y)
    decreases |x|
  {
    var s := x + y;
    if |x| == 0 {
      assert s == y;
    } else {
      StripThanksKeepsFirst(s);
      NoThanksBeforeInTail(s, |x|);
      assert s[1..] == x[1..] + y;
      StripThanksKeepsBlock(x[1..], y);
      assert x + StripThanks(y) == [x[0]] + (x[1..] + StripThanks(y));
    }
  }

  /** A reply that opens with thanks loses it: "감사합니다 좋아요" becomes
      " 좋아요". */
  lemma LeadingThanksExample()
    ensures StripThanks("감사합니다 좋아요") == " 좋아요"
  {
    assert "감사합니다 좋아요" == Gamsa + " 좋아요";
    StripThanksDropsLeadingGamsa(" 좋아요");
    assert !ContainsThanks(" 좋아요");
    StripThanksKeepsPlainText(" 좋아요");
  }

  /** One pass is not always enough: deleting an inner phrase can join its
      neighbours into a new one, so the result may still thank, and stripping
      again changes it. */
  lemma StripThanksNotIdempotent()
    ensures StripThanks("감사감사합니다합니다") == "감사합니다"
    ensures StripThanks(StripThanks("감사감사합니다합니다")) == ""
  {
    var t := "감사감사합니다합니다";
    assert t[0..|Gamsa|][2] != Gamsa[2] && t[0..|Gomawo|][0] != Gomawo[0];
    assert t[1..] == "사감사합니다합니다";
    assert t[1..][0..|Gamsa|][0] != Gamsa[0] && t[1..][0..|Gomawo|][0] != Gomawo[0];
    assert t[1..][1..] == "감사합니다합니다";
    assert PrefixAt(t[1..][1..], 0, Gamsa);
    var rest := "합니다";
    assert t[1..][1..][|Gamsa|..] == rest;
    assert StripThanks(rest) == rest by {
      StripThanksKeepsPlainText(rest);
    }
    assert PrefixAt("감사합니다", 0, Gamsa);
    assert "감사합니다"[|Gamsa|..] == [];
  }
}
