/** The worked examples of StrongPassword.cpp's comments, and the string of
    twenty-five equal letters, evaluated on the model. */
module Scenarios {
  import opened CharClasses
  import opened RepetitiveGroups
  import opened StrongPassword

  /** A string of `n` equal characters is one run. */
  lemma RunsOfRepeat(ch: char, n: nat)
    requires n > 0
    ensures Runs(Repeat(ch, n)) == [Run(ch, n)]
  {
    RunsPrepend(ch, n, []);
    assert Repeat(ch, n) + [] == Repeat(ch, n);
  }

  /** The empty password needs six insertions. */
  lemma EmptyNeedsSix()
    ensures MissingCount([]) == 3
    ensures EditNumber([]) == 6
  {
  }

  /** Replacement counts for a single group, from the comment of
      countReplaceForRepetitiveGroups: "aaa", "aaaa" and "aaaaa" each need
      one replacement. The string is a parameter pinned by the requires
      rather than a literal, so the verifier does not unfold Runs on the
      literal. */
  lemma ReplaceExamplesOneGroup(s: string)
    requires s == "aaa" || s == "aaaa" || s == "aaaaa"
    ensures Replaces(Runs(s)) == 1
  {
    assert s == Repeat('a', |s|);
    RunsOfRepeat('a', |s|);
    assert [Run('a', |s|)][1..] == [];
  }

  /** A single character in front of a string that does not start with
      it adds no replacement. */
  lemma SingleAddsNothing(ch: char, t: string)
    requires t == [] || t[0] != ch
    ensures Replaces(Runs([ch] + t)) == Replaces(Runs(t))
  {
    RunsPrepend(ch, 1, t);
    assert Repeat(ch, 1) == [ch];
    ReplacesCons(Run(ch, 1), Runs(t));
  }

  /** The tail example, letter by letter. The string is a parameter pinned
      by the requires rather than a literal, so the verifier does not unfold
      Runs on the literal. */
  lemma TailSpelling(s: string)
    requires s == "abcdefaaaaaaaa"
    ensures s == ['a'] + (['b'] + (['c'] + (['d'] + (['e'] + (['f'] + Repeat('a', 8))))))
  {
  }

  /** Six distinct letters, then a group of eight: 8 / 3 = 2 replacements.
      The string is a parameter pinned by the requires rather than a
      literal, so the verifier does not unfold Runs on the literal. */
  lemma ReplaceExampleTail(s: string)
    requires s == "abcdefaaaaaaaa"
    ensures Replaces(Runs(s)) == 2
  {
    var t6 := Repeat('a', 8);
    RunsOfRepeat('a', 8);
    ReplacesCons(Run('a', 8), []);
    assert [Run('a', 8)] + [] == [Run('a', 8)];
    var t5 := ['f'] + t6;
    SingleAddsNothing('f', t6);
    var t4 := ['e'] + t5;
    SingleAddsNothing('e', t5);
    var t3 := ['d'] + t4;
    SingleAddsNothing('d', t4);
    var t2 := ['c'] + t3;
    SingleAddsNothing('c', t3);
    var t1 := ['b'] + t2;
    SingleAddsNothing('b', t2);
    SingleAddsNothing('a', t1);
    TailSpelling(s);
  }

  /** Groups of six and eight: 6 / 3 + 8 / 3 = 4 replacements. The string
      is a parameter pinned by the requires rather than a literal, so the
      verifier does not unfold Runs on the literal. */
  lemma ReplaceExampleTwoGroups(s: string)
    requires s == "aaaaaabbbbbbbb"
    ensures Replaces(Runs(s)) == 4
  {
    var t := Repeat('b', 8);
    RunsOfRepeat('b', 8);
    ReplacesCons(Run('b', 8), []);
    assert [Run('b', 8)] + [] == [Run('b', 8)];
    RunsPrepend('a', 6, t);
    ReplacesCons(Run('a', 6), Runs(t));
    assert Repeat('a', 6) + t == s;
  }

  /** A single run fills only its own bucket. */
  lemma BucketsOfOne(r: Run)
    ensures DeleteBuckets([r]) == RunBucket(r.len)
  {
    assert [r][1..] == [];
    assert CountLong([r][1..], 0) == 0 && CountLong([r][1..], 1) == 0 && CountLong([r][1..], 2) == 0;
    SameBuckets(DeleteBuckets([r]), RunBucket(r.len));
  }

  /** One group of each kind lands in its own bucket: "aaa" is short,
      "aaaa" medium and "aaaaa" long. The string is a parameter pinned by
      the requires rather than a literal, so the verifier does not unfold
      Runs on the literal. */
  lemma BucketExamples(s: string)
    requires s == "aaa" || s == "aaaa" || s == "aaaaa"
    ensures |s| == 3 ==> DeleteBuckets(Runs(s)) == Buckets(1, 0, 0)
    ensures |s| == 4 ==> DeleteBuckets(Runs(s)) == Buckets(0, 2, 0)
    ensures |s| == 5 ==> DeleteBuckets(Runs(s)) == Buckets(0, 0, 3)
  {
    assert s == Repeat('a', |s|);
    RunsOfRepeat('a', |s|);
    BucketsOfOne(Run('a', |s|));
  }

  /** A lone group of L >= 3 equal characters fills its bucket with
      L % 3 + 1 deletions, and deleting that many leaves a group that needs
      exactly one replacement fewer. */
  lemma GroupDeletionSavesOne(ch: char, len: nat)
    requires len >= 3
    ensures DeleteBuckets(Runs(Repeat(ch, len))) == RunBucket(len)
    ensures var d := len % 3 + 1;
            Replaces(Runs(Repeat(ch, len - d))) + 1 == Replaces(Runs(Repeat(ch, len)))
    ensures Replaces(Runs(Repeat(ch, len))) == len / 3
  {
    var d := len % 3 + 1;
    RunsOfRepeat(ch, len);
    BucketsOfOne(Run(ch, len));
    RunsOfRepeat(ch, len - d);
    ReplacesCons(Run(ch, len), []);
    ReplacesCons(Run(ch, len - d), []);
    assert [Run(ch, len)] + [] == [Run(ch, len)];
    assert [Run(ch, len - d)] + [] == [Run(ch, len - d)];
    assert (len - d) / 3 + 1 == len / 3;
  }

  /** The examples of the countDeleteForRepetitiveGroups comment, for one
      group of L equal letters: the bucket the group fills holds the number
      of deletions the comment names, and the group of L - (L % 3 + 1)
      letters left behind needs the number of replacements it names ("aaa"
      to "aa" with none; 6, 7, 8 letters with 1, 2, 3 deletions and 1
      replacement; 9, 10, 11 with 1, 2, 3 deletions and 2 replacements; 12
      with 1 deletion and 3 replacements). GroupDeletionSavesOne carries
      these values over to the strings themselves. */
  lemma DeleteExamples()
    ensures RunBucket(3) == Buckets(1, 0, 0) && RunReplaces(3 - 1) == 0
    ensures RunBucket(6) == Buckets(1, 0, 0) && RunReplaces(6 - 1) == 1
    ensures RunBucket(7) == Buckets(0, 2, 0) && RunReplaces(7 - 2) == 1
    ensures RunBucket(8) == Buckets(0, 0, 3) && RunReplaces(8 - 3) == 1
    ensures RunBucket(9) == Buckets(1, 0, 0) && RunReplaces(9 - 1) == 2
    ensures RunBucket(10) == Buckets(0, 2, 0) && RunReplaces(10 - 2) == 2
    ensures RunBucket(11) == Buckets(0, 0, 3) && RunReplaces(11 - 3) == 2
    ensures RunBucket(12) == Buckets(1, 0, 0) && RunReplaces(12 - 1) == 3
  {
  }

  /** The single run of twenty-five letters needs 8 replacements and fills
      the medium bucket with 2. */
  lemma TwentyFiveRunCosts()
    ensures Replaces([Run('a', 25)]) == 8
    ensures DeleteBuckets([Run('a', 25)]) == Buckets(0, 2, 0)
  {
    assert [Run('a', 25)][1..] == [];
  }

  /** Five forced deletions against buckets (0, 2, 0): the code saves
      0 + 1 + 1, the capped reading 0 + 1 + 0. */
  lemma TwentyFiveSavings()
    ensures Saved(5, Buckets(0, 2, 0)) == 2
    ensures SavedCapped(5, Buckets(0, 2, 0)) == 1
  {
  }

  /** Twenty-five equal lower-case letters lack a digit and an upper-case
      letter. */
  lemma TwentyFiveMissing()
    ensures MissingCount(Repeat('a', 25)) == 2
  {
    var s := Repeat('a', 25);
    assert InClass(s[0], Lower);
    assert !Occurs(s, Digit) && !Occurs(s, Upper);
  }

  /** Twenty-five equal lower-case letters: 5 forced deletions, 8
      replacements, medium bucket 2, savings 2, result 5 + max(2, 6) = 11. */
  lemma TwentyFiveEqualLetters()
    ensures EditNumber(Repeat('a', 25)) == 11
  {
    var s := Repeat('a', 25);
    RunsOfRepeat('a', 25);
    TwentyFiveRunCosts();
    TwentyFiveSavings();
    TwentyFiveMissing();
    assert AdjustedReplaces(s) == 6;
  }
}
