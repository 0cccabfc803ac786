/** The dispatcher editNumberStrongPassword of StrongPassword.cpp: the number
    of single-character edits (insert, delete, replace) it reports for a
    password, by the three length regimes. */
module StrongPassword {
  import opened CharClasses
  import opened RepetitiveGroups

  /** LOWER_PASSWORD_BOUND and UPPER_PASSWORD_BOUND. */
  const MinLength: nat := 6
  const MaxLength: nat := 20

  /** A strong password: 6 to 20 characters, a digit, an upper-case and a
      lower-case letter, and no three equal characters in a row. */
  predicate IsStrong(s: string) {
    MinLength <= |s| <= MaxLength &&
    Occurs(s, Digit) && Occurs(s, Upper) && Occurs(s, Lower) &&
    !HasTriple(s)
  }

  function Max(a: int, b: int): int {
    if a >= b then a else b
  }

  function Min(a: int, b: int): int {
    if a <= b then a else b
  }

  /** Replacements saved by the `required` deletions a too-long password
      must undergo: spent first 1:1 on the short bucket, then 2:1 on the
      medium bucket, then whatever budget is left counts 3:1 without a cap.
      The long bucket is never consulted. */
  function Saved(required: nat, b: Buckets): (saved: int)
    ensures 0 <= saved <= required
    ensures b.short >= required ==> saved == required
    ensures b.medium % 2 == 0 ==> saved >= required / 3
    ensures required <= b.short + b.medium ==> saved <= b.short + b.medium / 2
  {
    var saved1 := if required > 0 then Min(required, b.short) else 0;
    var left1 := if required > 0 then required - b.short else required;
    var saved2 := if left1 > 0 then Min(left1, b.medium) / 2 else 0;
    var left2 := if left1 > 0 then left1 - b.medium else left1;
    var saved3 := if left2 > 0 then left2 / 3 else 0;
    saved1 + saved2 + saved3
  }

  /** A reading of the greedy spend in which the last step, like the first
      two, is capped by its bucket: at most the long bucket's deletions count
      3:1. The source does not cap it (StrongPassword.cpp:83-87). Capped,
      the savings never exceed what the three buckets can give: a
      replacement per short deletion, per two medium deletions and per
      three long deletions. */
  function SavedCapped(required: nat, b: Buckets): (saved: int)
    ensures 0 <= saved <= required
    ensures saved <= b.short + b.medium / 2 + b.long / 3
  {
    var saved1 := if required > 0 then Min(required, b.short) else 0;
    var left1 := if required > 0 then required - b.short else required;
    var saved2 := if left1 > 0 then Min(left1, b.medium) / 2 else 0;
    var left2 := if left1 > 0 then left1 - b.medium else left1;
    var saved3 := if left2 > 0 then Min(left2, b.long) / 3 else 0;
    saved1 + saved2 + saved3
  }

  /** The uncapped last step saves at least as much as the capped reading,
      and exactly as much whenever the budget left after the short and
      medium buckets fits in the long bucket. */
  lemma UncappedSavesAtLeastCapped(required: nat, b: Buckets)
    ensures SavedCapped(required, b) <= Saved(required, b)
    ensures required <= b.short + b.medium + b.long ==> SavedCapped(required, b) == Saved(required, b)
  {
  }

  /** On a lone group of `len` >= 3 letters the greedy spend, uncapped last
      step included, saves exactly the replacements that deleting `d` of
      its letters removes: after the short and medium steps the group is of
      type 3n + 2, so every three further deletions remove one replacement. */
  lemma SavedOnOneGroup(d: nat, len: nat)
    requires len >= 3 && d <= len
    ensures Saved(d, RunBucket(len)) == RunReplaces(len) - RunReplaces(len - d)
  {
  }

  /** The replacement count after the savings: never above the replacement
      count, and lowered by at most the number of forced deletions. It may
      drop below zero. */
  function AdjustedReplaces(s: string): (r: int)
    requires |s| > MaxLength
    ensures Replaces(Runs(s)) - (|s| - MaxLength) <= r <= Replaces(Runs(s))
  {
    Replaces(Runs(s)) - Saved(|s| - MaxLength, DeleteBuckets(Runs(s)))
  }

  /** The edit count editNumberStrongPassword returns. */
  function EditNumber(s: string): (r: int)
    ensures r >= 0
    ensures |s| < MinLength ==>
              r >= MinLength - |s| && r >= MissingCount(s) &&
              (r == MinLength - |s| || r == MissingCount(s))
    ensures MinLength <= |s| <= MaxLength ==>
              r >= MissingCount(s) && r >= Replaces(Runs(s)) &&
              (r == MissingCount(s) || r == Replaces(Runs(s)))
    ensures |s| > MaxLength ==> r >= |s| - MaxLength + MissingCount(s)
  {
    var missing := MissingCount(s);
    if |s| < MinLength then
      Max(MinLength - |s|, missing)
    else if |s| <= MaxLength then
      Max(missing, Replaces(Runs(s)))
    else
      (|s| - MaxLength) + Max(missing, AdjustedReplaces(s))
  }

  /** The edit count is zero exactly for strong passwords. */
  lemma EditNumberZeroIffStrong(s: string)
    ensures EditNumber(s) == 0 <==> IsStrong(s)
  {
    ReplacesZeroIffNoTriple(s);
  }

  /** Too long and without any triple: the result is the forced deletions
      plus one edit per missing class. From 23 characters on, the adjusted
      replacement count is negative here and only the maximum with the
      missing count keeps the result right. */
  lemma LongWithoutTriples(s: string)
    requires |s| > MaxLength && !HasTriple(s)
    ensures EditNumber(s) == |s| - MaxLength + MissingCount(s)
    ensures |s| >= MaxLength + 3 ==> AdjustedReplaces(s) < 0
  {
    ReplacesZeroIffNoTriple(s);
    BucketsEmptyIffNoReplaces(Runs(s));
  }

  /** When the forced deletions fit in the three buckets, the uncapped last
      step agrees with the capped one, the savings never exceed the
      replacements and the adjusted count stays non-negative. */
  lemma AdjustedReplacesNonNegative(s: string)
    requires |s| > MaxLength
    requires var b := DeleteBuckets(Runs(s)); |s| - MaxLength <= b.short + b.medium + b.long
    ensures AdjustedReplaces(s) >= 0
  {
    var b := DeleteBuckets(Runs(s));
    var required := |s| - MaxLength;
    UncappedSavesAtLeastCapped(required, b);
    SavingsWithinReplaces(s);
    assert AdjustedReplaces(s) == Replaces(Runs(s)) - Saved(required, b);
  }

  /** The capped savings never exceed the replacements a password needs. */
  lemma SavingsWithinReplaces(s: string)
    requires |s| > MaxLength
    ensures SavedCapped(|s| - MaxLength, DeleteBuckets(Runs(s))) <= Replaces(Runs(s))
  {
    BucketSavingsBounded(Runs(s));
  }

  /** Conversely, a negative adjusted count arises only from the uncapped
      last step: the forced deletions overflow the three buckets and the
      source saves more than the capped reading would. */
  lemma NegativeOnlyPastBuckets(s: string)
    requires |s| > MaxLength
    ensures var b := DeleteBuckets(Runs(s));
            AdjustedReplaces(s) < 0 ==>
              |s| - MaxLength > b.short + b.medium + b.long &&
              SavedCapped(|s| - MaxLength, b) < Saved(|s| - MaxLength, b)
  {
    var b := DeleteBuckets(Runs(s));
    var required := |s| - MaxLength;
    if AdjustedReplaces(s) < 0 {
      if required <= b.short + b.medium + b.long {
        AdjustedReplacesNonNegative(s);
      }
      SavingsWithinReplaces(s);
      assert AdjustedReplaces(s) == Replaces(Runs(s)) - Saved(required, b);
    }
  }

  /** Too long: the forced deletions never cost extra replacements. */
  lemma LongNeverWorse(s: string)
    requires |s| > MaxLength
    ensures EditNumber(s) <= |s| - MaxLength + Max(MissingCount(s), Replaces(Runs(s)))
  {
    LongSavesAThird(s, 0);
  }

  /** Too long: every three forced deletions save at least one replacement,
      whatever the buckets hold: for any k with 3 * k <= |s| - 20, the result
      is at most the deletions plus the larger of the missing count and the
      replacements less k. */
  lemma LongSavesAThird(s: string, k: nat)
    requires |s| > MaxLength && 3 * k <= |s| - MaxLength
    ensures EditNumber(s) <= |s| - MaxLength + Max(MissingCount(s), Replaces(Runs(s)) - k)
  {
    var required := |s| - MaxLength;
    var b := DeleteBuckets(Runs(s));
    assert b.medium % 2 == 0;
    var saved := Saved(required, b);
    assert saved >= k;
    EditNumberAboveMax(s);
    SavingsLowerTheMax(MissingCount(s), Replaces(Runs(s)), saved, k);
  }

  /** Above 20 characters the edit count is the forced deletions plus the
      larger of the missing count and the replacements left after the
      savings. */
  lemma EditNumberAboveMax(s: string)
    requires |s| > MaxLength
    ensures EditNumber(s) ==
            |s| - MaxLength + Max(MissingCount(s), Replaces(Runs(s)) - Saved(|s| - MaxLength, DeleteBuckets(Runs(s))))
  {
    assert AdjustedReplaces(s) == Replaces(Runs(s)) - Saved(|s| - MaxLength, DeleteBuckets(Runs(s)));
  }

  /** Subtracting savings between `least` and zero from the replacement
      count can only lower the maximum with the missing count. */
  lemma SavingsLowerTheMax(m: int, total: int, saved: int, least: int)
    requires 0 <= least <= saved
    ensures Max(m, total - saved) <= Max(m, total)
    ensures Max(m, total - saved) <= Max(m, total - least)
  {
  }

  /** editNumberStrongPassword as written: the three branches, the scanners
      as loops, and the greedy spending of the forced deletions with a
      running budget. */
  method ComputeEdits(s: string) returns (r: int)
    ensures r == EditNumber(s)
    ensures r == 0 <==> IsStrong(s)
  {
    if |s| < MinLength {
      var missing := CountMissing(s);
      var forLength := MinLength - |s|;
      r := Max(forLength, missing);
    } else if |s| <= MaxLength {
      var missing := CountMissing(s);
      var replaceCount := ScanReplaces(s);
      r := Max(missing, replaceCount);
    } else {
      var required := |s| - MaxLength;
      var smart := required;
      var short, medium, long := ScanDeletes(s);
      var total := ScanReplaces(s);
      var saved := 0;
      if smart > 0 {
        saved := saved + Min(smart, short);
        smart := smart - short;
      }
      if smart > 0 {
        saved := saved + Min(smart, medium) / 2;
        smart := smart - medium;
      }
      if smart > 0 {
        saved := saved + smart / 3;
      }
      total := total - saved;
      var missing := CountMissing(s);
      r := required + Max(missing, total);
    }
    EditNumberZeroIffStrong(s);
  }
}
