/**
 * `extractNumeric`: the number a message mentions, read as the first match
 * of the regular expression `\d{2,3}`.
 */
module Numeric {
  import opened Wrappers
  import opened Decimal

  /** Two adjacent digits start at index `i`: where `\d{2,3}` can match. */
  predicate PairAt(s: string, i: int) {
    0 <= i && i + 1 < |s| && IsDigit(s[i]) && IsDigit(s[i + 1])
  }

  /** `s[i..j]` is the first match of `\d{2,3}` in `s`: the leftmost start
      position, taking a third digit whenever there is one. */
  ghost predicate LeftmostMatch(s: string, i: int, j: int) {
    && PairAt(s, i)
    && (forall k | 0 <= k < i :: !PairAt(s, k))
    && i + 2 <= j <= i + 3 && j <= |s|
    && AllDigits(s[i..j])
    && (j == i + 3 || j == |s| || !IsDigit(s[j]))
  }

  /** The leftmost index at or after `from` where two digits start. */
  function FindPair(s: string, from: nat): (r: Option<nat>)
    ensures r.Some? ==> from <= r.value && PairAt(s, r.value)
    ensures r.Some? ==> forall k | from <= k < r.value :: !PairAt(s, k)
    ensures r.None? ==> forall k | from <= k :: !PairAt(s, k)
    decreases |s| - from
  {
    if from + 1 >= |s| then None
    else if PairAt(s, from) then Some(from)
    else FindPair(s, from + 1)
  }

  /** End of the greedy match of `\d{2,3}` starting at a digit pair. */
  function MatchEnd(s: string, i: nat): (j: nat)
    requires PairAt(s, i)
    ensures i + 2 <= j <= i + 3 && j <= |s| && AllDigits(s[i..j])
    ensures j == i + 3 || j == |s| || !IsDigit(s[j])
  {
    if i + 2 < |s| && IsDigit(s[i + 2]) then i + 3 else i + 2
  }

  /** `extractNumeric(text)`: the value of the first match of `\d{2,3}`, or
      `None` (JavaScript's `null`) when there is no match. */
  function ExtractNumeric(s: string): (r: Option<nat>)
    ensures r.None? <==> forall k :: !PairAt(s, k)
    ensures r.Some? ==> r.value <= 999
    ensures r.Some? ==> exists i, j :: LeftmostMatch(s, i, j) && r.value == DigitsValue(s[i..j])
  {
    match FindPair(s, 0)
    case None => None
    case Some(i) =>
      var j := MatchEnd(s, i);
      assert Pow10(|s[i..j]|) <= 1000 by {
        assert Pow10(2) == 100 && Pow10(3) == 1000;
      }
      assert LeftmostMatch(s, i, j);
      Some(DigitsValue(s[i..j]))
  }

  /** Whatever the leftmost greedy match is, `ExtractNumeric` returns its
      value. */
  lemma ExtractNumericIsLeftmostMatch(s: string, i: int, j: int)
    requires LeftmostMatch(s, i, j)
    ensures ExtractNumeric(s) == Some(DigitsValue(s[i..j]))
  {
    assert FindPair(s, 0) == Some(i);
  }

  /** A number written as two or three digits, with no pair of digits before
      it and no digit right next to it, is the number `ExtractNumeric` reads
      back. */
  lemma ExtractEmbedded(before: string, digits: string, after: string)
    requires forall k :: !PairAt(before, k)
    requires before == [] || !IsDigit(before[|before| - 1])
    requires 2 <= |digits| <= 3 && AllDigits(digits)
    requires after == [] || !IsDigit(after[0])
    ensures ExtractNumeric(before + digits + after) == Some(DigitsValue(digits))
  {
    var s := before + digits + after;
    var i := |before|;
    var j := |before| + |digits|;
    assert s[i..j] == digits;
    forall k | 0 <= k < i
      ensures !PairAt(s, k)
    {
      assert s[k] == before[k];
      if k + 1 < i {
        assert !PairAt(before, k);
      }
    }
    assert j < |s| ==> s[j] == after[0];
    ExtractNumericIsLeftmostMatch(s, i, j);
  }

  /** Greedy up to three digits: "1234" reads as 123. */
  lemma ExtractGreedy()
    ensures ExtractNumeric("1234") == Some(123)
  {
    assert "1234"[0..3] == "123";
    ExtractNumericIsLeftmostMatch("1234", 0, 3);
  }

  /** A leading zero is dropped: "05" reads as 5. */
  lemma ExtractLeadingZero()
    ensures ExtractNumeric("05") == Some(5)
  {
    assert "05"[0..2] == "05";
    ExtractNumericIsLeftmostMatch("05", 0, 2);
  }

  /** A lone digit is skipped: "a1b23" reads as 23. */
  lemma ExtractSkipsLoneDigit()
    ensures ExtractNumeric("a1b23") == Some(23)
  {
    var s := "a1b23";
    assert s[3..5] == "23";
    assert !PairAt(s, 0) && !PairAt(s, 1) && !PairAt(s, 2);
    ExtractNumericIsLeftmostMatch(s, 3, 5);
  }

  /** Digits that are never adjacent give no number. */
  lemma ExtractNoPair()
    ensures ExtractNumeric("1 2 3") == None
  {
    var s := "1 2 3";
    assert forall k :: !PairAt(s, k) by {
      assert !IsDigit(s[1]) && !IsDigit(s[3]);
    }
  }
}
