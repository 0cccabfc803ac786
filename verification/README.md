# Strong password edit count, in Dafny

A model of `StrongPassword.cpp`, which computes how many single-character
edits (insert, delete, replace) turn a string into a *strong password*: 6 to
20 characters, at least one digit, one upper-case and one lower-case letter,
and no three equal characters in a row. The program does not search over
edit sequences; it evaluates a closed formula built from four pieces, and
the model follows that structure:

- `char_classes.dfy` (module `CharClasses`): the missing-class counter
  `countMissingSpecialCharacters`, as a set of absent classes and as the
  source's flag loop (`CountMissing`).
- `runs.dfy` (module `RepetitiveGroups`): the decomposition of a string into
  maximal runs of equal characters (`Runs`), the replacement count
  (`countReplaceForRepetitiveGroups`) and the deletion buckets
  (`countDeleteForRepetitiveGroups`), each both as a function over the run
  sequence and as the source's index-based double loop (`ScanReplaces`,
  `ScanDeletes`, sharing the inner loop `GroupLength`).
- `strong_password.dfy` (module `StrongPassword`): the dispatcher
  `editNumberStrongPassword` over the three length regimes (`EditNumber`,
  and `ComputeEdits` with the running deletion budget), with the greedy
  spending of forced deletions (`Saved`).
- `scenarios.dfy` (module `Scenarios`): the examples in the comments of
  `countReplaceForRepetitiveGroups` (on the strings themselves) and of
  `countDeleteForRepetitiveGroups` (on one run, carried over to any group
  of equal characters), and the string of twenty-five equal letters.

The three character classes are the ASCII ranges `'0'..'9'`, `'A'..'Z'`,
`'a'..'z'`. Integers are unbounded.

The third greedy step (StrongPassword.cpp:83-87) divides the whole remaining
deletion budget by 3 and does not cap it by the long bucket, which is computed
but never read. Its comment (lines 84-85) reasons that the deletions left at
that point fall on groups of type 3n + 2, the type being the group's length
mod 3: a group of type 3n or 3n + 1 that took its 1 or 2 deletions in the
first two steps is of type 3n + 2 afterwards. On a lone group this is exact:
spending d deletions on one group of L >= 3 saves precisely the replacements
those deletions remove (`SavedOnOneGroup`). For twenty-five equal lower-case
letters the code saves 0 + 1 + 1 replacements (the group goes from 25 to 23
to 20 letters, from 8 to 6 replacements) and returns 5 + max(2, 6) = 11.

`SavedCapped` is an alternative reading that caps the last step by the long
bucket as first computed. It saves less: 0 + 1 + 0 on twenty-five letters,
giving 12. `UncappedSavesAtLeastCapped` relates the two. The comment's premise
fails once the groups can take no more deletions, as in a string with no
triple: there, from 23 characters on, the adjusted replacement count (line 89)
is negative, and the final `max` with the missing count absorbs that
(`LongWithoutTriples`). In general the adjusted count is never negative while
the forced deletions fit in the three buckets (`AdjustedReplacesNonNegative`),
and goes negative only when they overflow them and the uncapped step saves
more than the capped one (`NegativeOnlyPastBuckets`).

## Model

| member | source | states |
|---|---|---|
| CharClasses.MissingCount | StrongPassword.cpp:105-121 | the missing count is at most 3, is 3 for the empty string, is zero exactly when a digit, an upper-case and a lower-case letter all occur, and equals the sum of one per absent class |
| CharClasses.MissingCardinality | StrongPassword.cpp:120 | the number of absent classes, as a set, is 3 minus the number of classes whose flag is raised |
| CharClasses.MissingDependsOnlyOnCharacters | StrongPassword.cpp:111-119 | two strings over the same characters, in any order and multiplicity, lack the same classes and get the same count |
| CharClasses.CountMissing | StrongPassword.cpp:97-122 | the flag loop returns the number of absent classes, in 0..3, and 0 exactly when all three classes occur |
| RepetitiveGroups.LeadLen | StrongPassword.cpp:153-157 | the group counted from a start position has length at least 1 and at most the rest of the string |
| RepetitiveGroups.LeadLenSpec | StrongPassword.cpp:153-157 | the group counted from a start position covers only copies of its first character and stops at a different character or at the end |
| RepetitiveGroups.LeadLenUnique | StrongPassword.cpp:153-157 | any length with those two properties is the group length |
| RepetitiveGroups.Runs | StrongPassword.cpp:150-168 | the groups the scanners visit, in order, each taken at its start with the length of the inner loop; its properties are the three rows that follow |
| RepetitiveGroups.RunsPartition | StrongPassword.cpp:150-168 | the groups visited are non-empty, neighbouring groups hold different characters, and read in order they spell the string again |
| RepetitiveGroups.RunsUnique | StrongPassword.cpp:150-168 | any sequence of non-empty runs with neighbours differing that spells the string is the decomposition the scanners visit |
| RepetitiveGroups.RunsConcat | StrongPassword.cpp:150-168 | two strings that meet at different characters are grouped independently: the groups of the concatenation are the groups of the first followed by those of the second |
| RepetitiveGroups.Replaces | StrongPassword.cpp:190-191 | the replacement count of a run sequence: L / 3 for each run of length L >= 3, nothing for shorter runs (`RunReplaces`); its properties are the lemmas that follow |
| RepetitiveGroups.ReplacesZeroIffNoTriple | StrongPassword.cpp:171-195 | the replacement count is zero exactly when no three equal characters stand in a row |
| RepetitiveGroups.ExtendLastRun | StrongPassword.cpp:184-194 | lengthening the last run by one never lowers the replacement count and raises it by one exactly when the new length is a multiple of 3 |
| RepetitiveGroups.ExtendAnyRun | StrongPassword.cpp:184-194 | lengthening any run of L >= 1 by one character, wherever it stands between neighbours holding other characters, never lowers the replacement count and raises it by one exactly when L + 1 is a multiple of 3 |
| RepetitiveGroups.ExtendNewRun | StrongPassword.cpp:184-194 | appending a character unlike the last one opens a run of length 1 and leaves the replacement count unchanged |
| RepetitiveGroups.DeleteBuckets | StrongPassword.cpp:159-166 | the three buckets of a run sequence: the number of runs of length 3n, twice the number of length 3n + 1 and three times the number of length 3n + 2 (n >= 1), the contribution of one run being `RunBucket`; its properties are the lemmas that follow |
| RepetitiveGroups.BucketsCons | StrongPassword.cpp:159-166 | adding the groups one at a time, 1 to the short bucket for length 3n, 2 to the medium for 3n + 1, 3 to the long for 3n + 2 (n >= 1), ends with the short bucket equal to the number of runs of length 3n, the medium to twice the number of length 3n + 1 and the long to three times the number of length 3n + 2 |
| RepetitiveGroups.LongRunsNeedReplaces | StrongPassword.cpp:159-166 | there are no more runs of length 3 or more than replacements |
| RepetitiveGroups.BucketIncrementIsLeast | StrongPassword.cpp:125-141 | the 1, 2 or 3 a run adds to its bucket is the least number of deletions that lowers its replacement count, and it lowers it by exactly one |
| RepetitiveGroups.BucketSavingsBounded | StrongPassword.cpp:73-80 | spending the short and medium buckets in full (and the long at 3:1) never saves more replacements than the runs need |
| RepetitiveGroups.BucketsEmptyIffNoReplaces | StrongPassword.cpp:149-167 | all three buckets are zero exactly when no run needs a replacement |
| RepetitiveGroups.GroupLength | StrongPassword.cpp:153-157 | the inner loop that compares each character with its predecessor stops at the end of the maximal run that starts at i |
| RepetitiveGroups.ScanReplaces | StrongPassword.cpp:181-195 | the group-by-group loop returns the sum of L / 3 over runs with L >= 3, and 0 exactly when no three equal characters stand in a row |
| RepetitiveGroups.AddGroup | StrongPassword.cpp:159-166 | the three ifs add 1 to the short bucket for a group of length 3n, 2 to the medium for 3n + 1, 3 to the long for 3n + 2 (n >= 1), leave the other buckets alone, and add nothing for a group shorter than 3; the amount added is a number of deletions that lowers the group's replacement count by exactly one |
| RepetitiveGroups.ScanDeletes | StrongPassword.cpp:149-168 | the buckets start at zero, end equal to the bucket counts of the run decomposition, and are all zero exactly when no three equal characters stand in a row |
| StrongPassword.Saved | StrongPassword.cpp:69-87 | the saved replacements lie between 0 and the forced deletions, equal them when the short bucket covers them, are at least a third of them when the medium bucket is even, and do not exceed short + medium / 2 when the deletions fit in those two buckets |
| StrongPassword.SavedOnOneGroup | StrongPassword.cpp:69-87 | spending d forced deletions on a lone group of L >= 3 letters (d <= L) saves exactly the replacements the group loses, RunReplaces(L) - RunReplaces(L - d), the uncapped last step included |
| StrongPassword.SavedCapped | StrongPassword.cpp:69-87 | the greedy spend with the last step capped by the long bucket saves between 0 and the forced deletions, and never more than short + medium / 2 + long / 3 |
| StrongPassword.UncappedSavesAtLeastCapped | StrongPassword.cpp:83-87 | the uncapped last step saves at least as much as a step capped by the long bucket, and the same whenever the deletions fit in the three buckets |
| StrongPassword.EditNumber | StrongPassword.cpp:25-95 | the result is non-negative; below 6 characters it is the larger of 6 - length and the missing count; from 6 to 20 the larger of the missing count and the replacement count; above 20 at least the forced deletions plus the missing count |
| StrongPassword.EditNumberZeroIffStrong | StrongPassword.cpp:26-50 | the result is 0 exactly for strong passwords: 6 to 20 characters, all three classes, no triple |
| StrongPassword.LongWithoutTriples | StrongPassword.cpp:83-93 | above 20 characters without a triple the result is the forced deletions plus the missing count, although from 23 characters on the adjusted replacement count is negative |
| StrongPassword.AdjustedReplaces | StrongPassword.cpp:89 | the replacements left after the savings are at most the replacement count and at least the replacement count less the forced deletions |
| StrongPassword.SavingsWithinReplaces | StrongPassword.cpp:71-80 | the savings capped by the buckets never exceed the replacements the password needs |
| StrongPassword.AdjustedReplacesNonNegative | StrongPassword.cpp:71-89 | when the forced deletions fit in the three buckets, the adjusted replacement count is not negative |
| StrongPassword.NegativeOnlyPastBuckets | StrongPassword.cpp:83-89 | a negative adjusted replacement count implies that the forced deletions overflow the three buckets and that the uncapped last step saves more than the capped one |
| StrongPassword.LongSavesAThird | StrongPassword.cpp:52-93 | above 20 characters, every three forced deletions save at least one replacement in the result |
| StrongPassword.LongNeverWorse | StrongPassword.cpp:52-93 | above 20 characters, the result never exceeds the forced deletions plus the larger of the missing and replacement counts |
| StrongPassword.ComputeEdits | StrongPassword.cpp:25-95 | the branch-by-branch procedure with a running deletion budget returns the edit count, and 0 exactly for strong passwords |
| Scenarios.EmptyNeedsSix | StrongPassword.cpp:36-41 | the empty string misses 3 classes and needs 6 edits |
| Scenarios.ReplaceExamplesOneGroup | StrongPassword.cpp:175-177 | aaa, aaaa and aaaaa each need one replacement |
| Scenarios.ReplaceExampleTail | StrongPassword.cpp:178 | abcdefaaaaaaaa needs two replacements |
| Scenarios.ReplaceExampleTwoGroups | StrongPassword.cpp:179 | aaaaaabbbbbbbb needs four replacements |
| Scenarios.BucketExamples | StrongPassword.cpp:159-166 | aaa, aaaa and aaaaa land in the short (1), medium (2) and long (3) bucket |
| Scenarios.DeleteExamples | StrongPassword.cpp:131-141 | for one group of 3, 6, 7, 8, 9, 10, 11 or 12 letters, the bucket entry is the number of deletions the comment names and the group left after them needs the number of replacements it names |
| Scenarios.GroupDeletionSavesOne | StrongPassword.cpp:125-141 | a lone group of L >= 3 equal characters fills its bucket with L % 3 + 1, and deleting that many characters leaves a group needing exactly one replacement fewer |
| Scenarios.TwentyFiveRunCosts | StrongPassword.cpp:149-195 | one run of twenty-five needs 8 replacements and puts 2 in the medium bucket |
| Scenarios.TwentyFiveSavings | StrongPassword.cpp:69-87 | five forced deletions against buckets (0, 2, 0) save 2 replacements, 1 under the capped reading |
| Scenarios.TwentyFiveMissing | StrongPassword.cpp:105-121 | twenty-five equal lower-case letters miss 2 classes |
| Scenarios.TwentyFiveEqualLetters | StrongPassword.cpp:52-93 | twenty-five equal lower-case letters need 5 + max(2, 8 - 2) = 11 edits |

## Left out

- `main` (StrongPassword.cpp:16-23): the prompt, the `std::cin` token read and the print are I/O around the computation.
- Locale-dependent `isdigit`, `isupper` and `islower`, and their undefined behaviour on negative `char`: the classes are the ASCII ranges.
- `size_t`/`int` conversions and overflow: lengths and counts are unbounded integers.
- Optimality: the model states what the formula computes, not that it is the least number of edits over all edit sequences, and it does not reconstruct edit sequences.
- Out-parameters of `countDeleteForRepetitiveGroups`: `ScanDeletes` returns the three buckets instead.
- StrongPassword.EditNumber: above 20 characters its contract gives only a lower bound. The exact value is the body's formula, forced deletions + max(missing, replacements - `Saved`). Its contract and the lemmas `LongWithoutTriples`, `LongSavesAThird` and `LongNeverWorse` bound that value.
- Encoding: each element of the Dafny string stands for one `char` (byte) of the `std::string`. Lengths, runs and classes are counted over bytes, so a multi-byte UTF-8 character is several elements. Read as text instead, the model would see a run of three 'é' in "aB1ééé", where the program sees nine bytes with no triple.
