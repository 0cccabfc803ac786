/** Maximal runs of equal characters, and the two quantities the scanners of
    StrongPassword.cpp derive from them: the replacements that break every
    run of three or more (countReplaceForRepetitiveGroups) and the deletion
    buckets (countDeleteForRepetitiveGroups). Both scanners share one inner
    loop, modelled once as GroupLength. */
module RepetitiveGroups {

  /** `len` copies of `ch` in a row. */
  datatype Run = Run(ch: char, len: nat)

  /** `n` copies of `ch`. */
  function Repeat(ch: char, n: nat): (r: string)
    ensures |r| == n
    ensures forall i :: 0 <= i < n ==> r[i] == ch
  {
    seq(n, _ => ch)
  }

  /** One more copy goes at the end. */
  lemma RepeatSnoc(ch: char, n: nat)
    ensures Repeat(ch, n + 1) == Repeat(ch, n) + [ch]
  {
  }

  /** The characters a sequence of runs stands for. */
  function Expand(rs: seq<Run>): string {
    if rs == [] then [] else Repeat(rs[0].ch, rs[0].len) + Expand(rs[1..])
  }

  /** Every run is non-empty and neighbouring runs hold different
      characters, so no two runs could merge. */
  ghost predicate Maximal(rs: seq<Run>) {
    (forall k :: 0 <= k < |rs| ==> rs[k].len >= 1) &&
    (forall j :: 0 <= j < |rs| - 1 ==> rs[j].ch != rs[j + 1].ch)
  }

  /** Three equal characters in a row occur somewhere in `s`. */
  predicate HasTriple(s: string) {
    exists i :: 0 <= i < |s| - 2 && TripleAt(s, i)
  }

  /** The characters at `i`, `i + 1` and `i + 2` are equal. */
  predicate TripleAt(s: string, i: int)
    requires 0 <= i < |s| - 2
  {
    s[i] == s[i + 1] && s[i + 1] == s[i + 2]
  }

  /** The length of the run that starts `s`. */
  function LeadLen(s: string): (k: nat)
    requires |s| > 0
    ensures 1 <= k <= |s|
  {
    if |s| == 1 || s[1] != s[0] then 1 else 1 + LeadLen(s[1..])
  }

  /** The leading run is maximal: it holds only copies of the first
      character and stops at a different character or at the end. */
  lemma {:induction false} LeadLenSpec(s: string)
    requires |s| > 0
    ensures forall j :: 0 <= j < LeadLen(s) ==> s[j] == s[0]
    ensures LeadLen(s) == |s| || s[LeadLen(s)] != s[0]
  {
    if |s| > 1 && s[1] == s[0] {
      LeadLenSpec(s[1..]);
    }
  }

  /** The three properties of LeadLen single it out. */
  lemma LeadLenUnique(s: string, k: nat)
    requires 1 <= k <= |s|
    requires forall j :: 0 <= j < k ==> s[j] == s[0]
    requires k == |s| || s[k] != s[0]
    ensures k == LeadLen(s)
  {
    LeadLenSpec(s);
  }

  /** A block of `n` equal characters in front of a string that does not
      start with that character becomes a run of its own. */
  lemma RunsPrepend(ch: char, n: nat, s: string)
    requires n > 0
    requires s == [] || s[0] != ch
    ensures Runs(Repeat(ch, n) + s) == [Run(ch, n)] + Runs(s)
  {
    var t := Repeat(ch, n) + s;
    LeadLenUnique(t, n);
    assert t[n..] == s;
  }

  /** The run decomposition of `s`, read left to right: a leading run, then
      the runs of what follows it. */
  function Runs(s: string): seq<Run>
    decreases |s|
  {
    if |s| == 0 then [] else [Run(s[0], LeadLen(s))] + Runs(s[LeadLen(s)..])
  }

  /** A run in front whose character differs from the next run's keeps a
      sequence maximal. */
  lemma MaximalCons(r: Run, rest: seq<Run>)
    requires Maximal(rest) && r.len >= 1
    requires rest == [] || rest[0].ch != r.ch
    ensures Maximal([r] + rest)
  {
    var rs := [r] + rest;
    forall k | 0 <= k < |rs|
      ensures rs[k].len >= 1
    {
      if k > 0 {
        assert rs[k] == rest[k - 1];
      }
    }
    forall j | 0 <= j < |rs| - 1
      ensures rs[j].ch != rs[j + 1].ch
    {
      assert rs[j + 1] == rest[j];
      if j > 0 {
        assert rs[j] == rest[j - 1];
      }
    }
  }

  /** Expanding a sequence with a run in front puts that run's characters first. */
  lemma ExpandCons(r: Run, rest: seq<Run>)
    ensures Expand([r] + rest) == Repeat(r.ch, r.len) + Expand(rest)
  {
    assert ([r] + rest)[1..] == rest;
  }

  /** The leading run of `s` is LeadLen(s) copies of its first character. */
  lemma LeadIsRepeat(s: string)
    requires |s| > 0
    ensures s == Repeat(s[0], LeadLen(s)) + s[LeadLen(s)..]
  {
    var k := LeadLen(s);
    LeadLenSpec(s);
    PrefixIsRepeat(s, k);
    assert s == s[..k] + s[k..];
  }

  /** A prefix of `k` copies of the first character is Repeat(s[0], k). */
  lemma PrefixIsRepeat(s: string, k: nat)
    requires 0 < k <= |s|
    requires forall j :: 0 <= j < k ==> s[j] == s[0]
    ensures s[..k] == Repeat(s[0], k)
  {
    forall j | 0 <= j < k
      ensures s[..k][j] == Repeat(s[0], k)[j]
    {
    }
  }

  /** The runs are non-empty, neighbouring runs differ, and the first run
      holds the first character. */
  lemma {:induction false} RunsMaximal(s: string)
    ensures Maximal(Runs(s))
    ensures |s| > 0 ==> |Runs(s)| > 0 && Runs(s)[0].ch == s[0]
    decreases |s|
  {
    if |s| > 0 {
      var k := LeadLen(s);
      var lead := Run(s[0], k);
      var rest := Runs(s[k..]);
      assert Runs(s) == [lead] + rest;
      LeadLenSpec(s);
      RunsMaximal(s[k..]);
      MaximalCons(lead, rest);
    }
  }

  /** Read in order, the runs spell `s` again. */
  lemma {:induction false} RunsSpell(s: string)
    ensures Expand(Runs(s)) == s
    decreases |s|
  {
    if |s| > 0 {
      var k := LeadLen(s);
      var lead := Run(s[0], k);
      var rest := Runs(s[k..]);
      assert Runs(s) == [lead] + rest;
      RunsSpell(s[k..]);
      ExpandCons(lead, rest);
      LeadIsRepeat(s);
    }
  }

  /** The runs partition `s`: they are non-empty, neighbouring runs differ,
      and read in order they spell `s` again. */
  lemma RunsPartition(s: string)
    ensures Maximal(Runs(s))
    ensures Expand(Runs(s)) == s
    ensures |s| > 0 ==> |Runs(s)| > 0 && Runs(s)[0].ch == s[0]
  {
    RunsMaximal(s);
    RunsSpell(s);
  }

  /** A non-empty maximal run sequence expands to a string that starts with
      its first run's character. */
  lemma ExpandHead(rs: seq<Run>)
    requires Maximal(rs) && |rs| > 0
    ensures |Expand(rs)| >= rs[0].len >= 1
    ensures Expand(rs)[0] == rs[0].ch
  {
  }

  /** Runs(s) is the only maximal run sequence that expands to `s`. */
  lemma {:induction false} RunsUnique(rs: seq<Run>, s: string)
    requires Maximal(rs) && Expand(rs) == s
    ensures rs == Runs(s)
    decreases |rs|
  {
    if rs != [] {
      var r := rs[0];
      var tail := rs[1..];
      assert Maximal(tail);
      ExpandHead(rs);
      assert s == Repeat(r.ch, r.len) + Expand(tail);
      if r.len < |s| {
        ExpandHead(tail);
        assert s[r.len] == tail[0].ch;
      }
      LeadLenUnique(s, r.len);
      assert s[r.len..] == Expand(tail);
      RunsUnique(tail, s[r.len..]);
    }
  }

  /** Expanding a concatenation concatenates the expansions. */
  lemma {:induction false} ExpandAppend(a: seq<Run>, b: seq<Run>)
    ensures Expand(a + b) == Expand(a) + Expand(b)
    decreases |a|
  {
    if a != [] {
      assert (a + b)[1..] == a[1..] + b;
      ExpandAppend(a[1..], b);
    } else {
      assert a + b == b;
    }
  }

  /** Replacements one run needs: a breaker every third character. */
  function RunReplaces(len: nat): nat {
    if len >= 3 then len / 3 else 0
  }

  /** Replacements a whole run sequence needs. */
  function Replaces(rs: seq<Run>): nat {
    if rs == [] then 0 else RunReplaces(rs[0].len) + Replaces(rs[1..])
  }

  /** Replacements of a sequence with one more run in front. */
  lemma ReplacesCons(r: Run, rest: seq<Run>)
    ensures Replaces([r] + rest) == RunReplaces(r.len) + Replaces(rest)
  {
    assert ([r] + rest)[1..] == rest;
  }

  /** Replacements of a concatenation add up. */
  lemma {:induction false} ReplacesAppend(a: seq<Run>, b: seq<Run>)
    ensures Replaces(a + b) == Replaces(a) + Replaces(b)
    decreases |a|
  {
    if a != [] {
      assert (a + b)[1..] == a[1..] + b;
      ReplacesAppend(a[1..], b);
    } else {
      assert a + b == b;
    }
  }

  /** A triple in `s` lies inside the leading run or wholly after it: no
      triple straddles the boundary, because the next character differs. */
  lemma TripleSplit(s: string)
    requires |s| > 0
    ensures HasTriple(s) <==> LeadLen(s) >= 3 || HasTriple(s[LeadLen(s)..])
  {
    TripleAfterLead(s);
    TripleInLead(s);
    TripleSomewhere(s);
  }

  /** A triple after the leading run is a triple of `s`. */
  lemma TripleAfterLead(s: string)
    requires |s| > 0
    ensures HasTriple(s[LeadLen(s)..]) ==> HasTriple(s)
  {
    var k := LeadLen(s);
    var t := s[k..];
    if HasTriple(t) {
      var i :| 0 <= i < |t| - 2 && TripleAt(t, i);
      assert TripleAt(s, k + i);
    }
  }

  /** A leading run of three or more is a triple of `s`. */
  lemma TripleInLead(s: string)
    requires |s| > 0
    ensures LeadLen(s) >= 3 ==> HasTriple(s)
  {
    LeadLenSpec(s);
    if LeadLen(s) >= 3 {
      assert TripleAt(s, 0);
    }
  }

  /** A triple of `s` lies inside the leading run or after it. */
  lemma TripleSomewhere(s: string)
    requires |s| > 0
    ensures HasTriple(s) ==> LeadLen(s) >= 3 || HasTriple(s[LeadLen(s)..])
  {
    var k := LeadLen(s);
    if HasTriple(s) {
      var i :| 0 <= i < |s| - 2 && TripleAt(s, i);
      var t := s[k..];
      if i >= k {
        assert TripleAt(t, i - k);
      } else {
        LeadLenSpec(s);
        assert s[i] == s[0] && s[i + 1] == s[0] && s[i + 2] == s[0];
      }
    }
  }

  /** The replacement count of `s` is zero exactly when `s` has no three
      equal characters in a row. */
  lemma {:induction false} ReplacesZeroIffNoTriple(s: string)
    ensures Replaces(Runs(s)) == 0 <==> !HasTriple(s)
    decreases |s|
  {
    if |s| > 0 {
      var k := LeadLen(s);
      assert Runs(s)[1..] == Runs(s[k..]);
      ReplacesZeroIffNoTriple(s[k..]);
      TripleSplit(s);
    }
  }

  /** Expanding a sequence with one more run appends that run's characters. */
  lemma ExpandSnoc(rs: seq<Run>, r: Run)
    ensures Expand(rs + [r]) == Expand(rs) + Repeat(r.ch, r.len)
  {
    ExpandAppend(rs, [r]);
    assert [r][1..] == [];
  }

  /** Replacements of a sequence with one more run. */
  lemma ReplacesSnoc(rs: seq<Run>, r: Run)
    ensures Replaces(rs + [r]) == Replaces(rs) + RunReplaces(r.len)
  {
    ReplacesAppend(rs, [r]);
    assert [r][1..] == [];
  }

  /** One more run whose character differs from the last keeps a sequence maximal. */
  lemma MaximalSnoc(rs: seq<Run>, r: Run)
    requires Maximal(rs) && r.len >= 1
    requires rs == [] || rs[|rs| - 1].ch != r.ch
    ensures Maximal(rs + [r])
  {
    var rs' := rs + [r];
    forall k | 0 <= k < |rs'|
      ensures rs'[k].len >= 1
    {
      if k < |rs| {
        assert rs'[k] == rs[k];
      }
    }
    forall j | 0 <= j < |rs'| - 1
      ensures rs'[j].ch != rs'[j + 1].ch
    {
      assert rs'[j] == rs[j];
      if j + 1 < |rs| {
        assert rs'[j + 1] == rs[j + 1];
      }
    }
  }

  /** Dropping the last run keeps a sequence maximal. */
  lemma MaximalInit(rs: seq<Run>)
    requires Maximal(rs) && |rs| > 0
    ensures Maximal(rs[..|rs| - 1])
  {
    var init := rs[..|rs| - 1];
    forall k | 0 <= k < |init|
      ensures init[k].len >= 1
    {
      assert init[k] == rs[k];
    }
    forall j | 0 <= j < |init| - 1
      ensures init[j].ch != init[j + 1].ch
    {
      assert init[j] == rs[j] && init[j + 1] == rs[j + 1];
    }
  }

  /** The runs before the last one spell `s` up to the last run. */
  lemma LastRun(s: string)
    requires |s| > 0
    ensures var rs := Runs(s);
            Expand(rs[..|rs| - 1]) + Repeat(rs[|rs| - 1].ch, rs[|rs| - 1].len) == s
  {
    RunsMaximal(s);
    RunsSpell(s);
    var rs := Runs(s);
    var n := |rs|;
    assert rs == rs[..n - 1] + [rs[n - 1]];
    ExpandSnoc(rs[..n - 1], rs[n - 1]);
  }

  /** The last run of `s` holds the last character of `s`. */
  lemma LastRunChar(s: string)
    requires |s| > 0
    ensures Runs(s)[|Runs(s)| - 1].ch == s[|s| - 1]
  {
    RunsMaximal(s);
    LastRun(s);
    var rs := Runs(s);
    var last := rs[|rs| - 1];
    assert last.len >= 1;
    assert s[|s| - 1] == Repeat(last.ch, last.len)[last.len - 1];
  }

  /** One more character in a run adds a replacement exactly when the new
      length is a multiple of three. */
  lemma RunReplacesStep(len: nat)
    ensures RunReplaces(len + 1) == RunReplaces(len) + (if (len + 1) % 3 == 0 then 1 else 0)
  {
  }

  /** Runs(s) with its last run one longer is maximal when `c` repeats the
      last character. */
  lemma GrownLastIsMaximal(s: string, c: char)
    requires |s| > 0 && c == s[|s| - 1]
    ensures var rs := Runs(s);
            Maximal(rs[..|rs| - 1] + [Run(c, rs[|rs| - 1].len + 1)])
  {
    RunsMaximal(s);
    LastRunChar(s);
    GrowLastKeepsMaximal(Runs(s));
  }

  /** Lengthening the last run keeps a sequence maximal. */
  lemma GrowLastKeepsMaximal(rs: seq<Run>)
    requires Maximal(rs) && |rs| > 0
    ensures var last := rs[|rs| - 1];
            Maximal(rs[..|rs| - 1] + [Run(last.ch, last.len + 1)])
  {
    var n := |rs|;
    var init := rs[..n - 1];
    MaximalInit(rs);
    if n > 1 {
      assert init[n - 2] == rs[n - 2];
      assert rs[n - 2].ch != rs[n - 1].ch;
    }
    MaximalSnoc(init, Run(rs[n - 1].ch, rs[n - 1].len + 1));
  }

  /** Runs(s) with its last run one longer spells `s + [c]` when `c`
      repeats the last character. */
  lemma GrownLastExpands(s: string, c: char)
    requires |s| > 0 && c == s[|s| - 1]
    ensures var rs := Runs(s);
            Expand(rs[..|rs| - 1] + [Run(c, rs[|rs| - 1].len + 1)]) == s + [c]
  {
    LastRun(s);
    var rs := Runs(s);
    var n := |rs|;
    var init, last := rs[..n - 1], rs[n - 1];
    ExpandSnoc(init, Run(c, last.len + 1));
    RepeatSnoc(c, last.len);
    assert Expand(init) + (Repeat(c, last.len) + [c]) == (Expand(init) + Repeat(c, last.len)) + [c];
  }

  /** Appending a copy of the last character lengthens the last run by one
      and leaves every other run as it was. */
  lemma RunsExtendLast(s: string, c: char)
    requires |s| > 0 && c == s[|s| - 1]
    ensures var rs := Runs(s);
            Runs(s + [c]) == rs[..|rs| - 1] + [Run(c, rs[|rs| - 1].len + 1)]
  {
    var rs := Runs(s);
    GrownLastIsMaximal(s, c);
    GrownLastExpands(s, c);
    RunsUnique(rs[..|rs| - 1] + [Run(c, rs[|rs| - 1].len + 1)], s + [c]);
  }

  /** Replacements of a sequence whose last run grows by one. */
  lemma GrowLast(rs: seq<Run>, c: char)
    requires |rs| > 0
    ensures var last := rs[|rs| - 1];
            Replaces(rs[..|rs| - 1] + [Run(c, last.len + 1)]) ==
            Replaces(rs) + (if (last.len + 1) % 3 == 0 then 1 else 0)
  {
    var n := |rs|;
    var init, last := rs[..n - 1], rs[n - 1];
    assert rs == init + [last];
    ReplacesSnoc(init, last);
    ReplacesSnoc(init, Run(c, last.len + 1));
    RunReplacesStep(last.len);
  }

  /** Appending a copy of the last character never lowers the replacement
      count, and raises it by one exactly when the last run's new length is
      a multiple of three. */
  lemma ExtendLastRun(s: string, c: char)
    requires |s| > 0 && c == s[|s| - 1]
    ensures var L := Runs(s)[|Runs(s)| - 1].len;
            Replaces(Runs(s + [c])) == Replaces(Runs(s)) + (if (L + 1) % 3 == 0 then 1 else 0)
    ensures Replaces(Runs(s + [c])) >= Replaces(Runs(s))
  {
    var rs := Runs(s);
    assert |rs| > 0;
    var grown := rs[..|rs| - 1] + [Run(c, rs[|rs| - 1].len + 1)];
    GrowLast(rs, c);
    RunsExtendLast(s, c);
    assert Runs(s + [c]) == grown;
  }

  /** Runs(s) with a run of one `c` added is maximal when `c` differs
      from the last character of `s`. */
  lemma NewRunIsMaximal(s: string, c: char)
    requires |s| == 0 || c != s[|s| - 1]
    ensures Maximal(Runs(s) + [Run(c, 1)])
  {
    RunsMaximal(s);
    if |s| > 0 {
      LastRunChar(s);
    }
    MaximalSnoc(Runs(s), Run(c, 1));
  }

  /** Runs(s) with a run of one `c` added spells `s + [c]`. */
  lemma NewRunExpands(s: string, c: char)
    ensures Expand(Runs(s) + [Run(c, 1)]) == s + [c]
  {
    RunsSpell(s);
    ExpandSnoc(Runs(s), Run(c, 1));
    assert Repeat(c, 1) == [c];
  }

  /** Appending a character different from the last one opens a new run of
      length one and leaves the replacement count unchanged. */
  lemma ExtendNewRun(s: string, c: char)
    requires |s| == 0 || c != s[|s| - 1]
    ensures Runs(s + [c]) == Runs(s) + [Run(c, 1)]
    ensures Replaces(Runs(s + [c])) == Replaces(Runs(s))
  {
    NewRunIsMaximal(s, c);
    NewRunExpands(s, c);
    RunsUnique(Runs(s) + [Run(c, 1)], s + [c]);
    ReplacesSnoc(Runs(s), Run(c, 1));
  }

  /** Two maximal run sequences stay maximal side by side when the runs
      where they meet hold different characters. */
  lemma MaximalAppend(a: seq<Run>, b: seq<Run>)
    requires Maximal(a) && Maximal(b)
    requires a == [] || b == [] || a[|a| - 1].ch != b[0].ch
    ensures Maximal(a + b)
  {
    var ab := a + b;
    forall k | 0 <= k < |ab|
      ensures ab[k].len >= 1
    {
      if k < |a| {
        assert ab[k] == a[k];
      } else {
        assert ab[k] == b[k - |a|];
      }
    }
    forall j | 0 <= j < |ab| - 1
      ensures ab[j].ch != ab[j + 1].ch
    {
      if j + 1 < |a| {
        assert ab[j] == a[j] && ab[j + 1] == a[j + 1];
      } else if j < |a| {
        assert ab[j] == a[|a| - 1] && ab[j + 1] == b[0];
      } else {
        assert ab[j] == b[j - |a|] && ab[j + 1] == b[j + 1 - |a|];
      }
    }
  }

  /** Strings that meet at two different characters split into runs
      independently: no run straddles the seam. */
  lemma RunsConcat(x: string, y: string)
    requires x == [] || y == [] || x[|x| - 1] != y[0]
    ensures Runs(x + y) == Runs(x) + Runs(y)
  {
    if x == [] {
      assert x + y == y;
    } else if y == [] {
      assert x + y == x;
    } else {
      RunsMaximal(x);
      RunsMaximal(y);
      RunsSpell(x);
      RunsSpell(y);
      LastRunChar(x);
      MaximalAppend(Runs(x), Runs(y));
      ExpandAppend(Runs(x), Runs(y));
      RunsUnique(Runs(x) + Runs(y), x + y);
    }
  }

  /** A block of `n` copies of `ch` between neighbours holding other
      characters is exactly one run of the string. */
  lemma RunsAround(p: string, ch: char, n: nat, q: string)
    requires n >= 1
    requires p == [] || p[|p| - 1] != ch
    requires q == [] || q[0] != ch
    ensures Runs(p + Repeat(ch, n) + q) == Runs(p) + [Run(ch, n)] + Runs(q)
  {
    var t := Repeat(ch, n) + q;
    assert p + Repeat(ch, n) + q == p + t;
    assert Runs(t) == [Run(ch, n)] + Runs(q) by {
      RunsPrepend(ch, n, q);
    }
    RunsConcat(p, t);
  }

  /** Replacements of a run sequence one of whose runs grows by one. */
  lemma GrowMiddle(a: seq<Run>, c: char, len: nat, b: seq<Run>)
    ensures Replaces(a + [Run(c, len + 1)] + b) ==
            Replaces(a + [Run(c, len)] + b) + (if (len + 1) % 3 == 0 then 1 else 0)
  {
    ReplacesAppend(a + [Run(c, len + 1)], b);
    ReplacesAppend(a + [Run(c, len)], b);
    ReplacesSnoc(a, Run(c, len + 1));
    ReplacesSnoc(a, Run(c, len));
    RunReplacesStep(len);
  }

  /** Lengthening any run of a string by one character, wherever it sits,
      never lowers the replacement count, and raises it by one exactly when
      the run's new length is a multiple of three. */
  lemma ExtendAnyRun(p: string, ch: char, len: nat, q: string)
    requires len >= 1
    requires p == [] || p[|p| - 1] != ch
    requires q == [] || q[0] != ch
    ensures Replaces(Runs(p + Repeat(ch, len + 1) + q)) ==
            Replaces(Runs(p + Repeat(ch, len) + q)) + (if (len + 1) % 3 == 0 then 1 else 0)
    ensures Replaces(Runs(p + Repeat(ch, len + 1) + q)) >= Replaces(Runs(p + Repeat(ch, len) + q))
  {
    assert Runs(p + Repeat(ch, len) + q) == Runs(p) + [Run(ch, len)] + Runs(q) by {
      RunsAround(p, ch, len, q);
    }
    assert Runs(p + Repeat(ch, len + 1) + q) == Runs(p) + [Run(ch, len + 1)] + Runs(q) by {
      RunsAround(p, ch, len + 1, q);
    }
    GrowMiddle(Runs(p), ch, len, Runs(q));
  }

  /** The deletion buckets of countDeleteForRepetitiveGroups. A run of length
      L >= 3 adds to the bucket of L % 3 the deletions that take it below its
      current multiple of three: 1 for short (3n), 2 for medium (3n + 1),
      3 for long (3n + 2). */
  datatype Buckets = Buckets(short: nat, medium: nat, long: nat)

  /** The number of runs of length at least three whose length is `m` mod 3. */
  function CountLong(rs: seq<Run>, m: nat): nat {
    if rs == [] then 0
    else (if rs[0].len >= 3 && rs[0].len % 3 == m then 1 else 0) + CountLong(rs[1..], m)
  }

  /** Bucket-wise sum. */
  function Plus(a: Buckets, b: Buckets): Buckets {
    Buckets(a.short + b.short, a.medium + b.medium, a.long + b.long)
  }

  /** Buckets that agree on every count are equal. */
  lemma SameBuckets(a: Buckets, b: Buckets)
    requires a.short == b.short && a.medium == b.medium && a.long == b.long
    ensures a == b
  {
  }

  /** What one run of length `len` adds to the buckets. */
  function RunBucket(len: nat): Buckets {
    if len >= 3 then
      if len % 3 == 0 then Buckets(1, 0, 0)
      else if len % 3 == 1 then Buckets(0, 2, 0)
      else Buckets(0, 0, 3)
    else Buckets(0, 0, 0)
  }

  /** The buckets of a run sequence: the short bucket counts the runs of
      length 3n (n >= 1), the medium bucket holds twice the number of runs
      of length 3n + 1 and the long bucket three times the number of runs
      of length 3n + 2. */
  function DeleteBuckets(rs: seq<Run>): Buckets {
    Buckets(CountLong(rs, 0), 2 * CountLong(rs, 1), 3 * CountLong(rs, 2))
  }

  /** Adding the runs one at a time, each to the bucket of its length, as
      countDeleteForRepetitiveGroups does, gives the buckets. */
  lemma BucketsCons(r: Run, rs: seq<Run>)
    ensures DeleteBuckets([r] + rs) == Plus(RunBucket(r.len), DeleteBuckets(rs))
  {
    assert ([r] + rs)[1..] == rs;
    SameBuckets(DeleteBuckets([r] + rs), Plus(RunBucket(r.len), DeleteBuckets(rs)));
  }

  /** The increment a run adds to its bucket, len % 3 + 1, is the least
      number of deletions that lowers the run's replacement count, and it
      lowers it by exactly one. */
  lemma BucketIncrementIsLeast(len: nat, d: nat)
    requires len >= 3
    ensures d < len % 3 + 1 ==> RunReplaces(len - d) == RunReplaces(len)
    ensures RunReplaces(len - (len % 3 + 1)) == RunReplaces(len) - 1
  {
  }

  /** Every run of three or more needs at least one replacement, so there
      are no more such runs than replacements. */
  lemma {:induction false} LongRunsNeedReplaces(rs: seq<Run>)
    ensures CountLong(rs, 0) + CountLong(rs, 1) + CountLong(rs, 2) <= Replaces(rs)
  {
    if rs != [] {
      LongRunsNeedReplaces(rs[1..]);
    }
  }

  /** Spending the buckets in full at their ratios (1:1, 2:1, 3:1) never
      saves more replacements than the runs need. */
  lemma {:induction false} BucketSavingsBounded(rs: seq<Run>)
    ensures var b := DeleteBuckets(rs);
            b.short + b.medium / 2 + b.long / 3 <= Replaces(rs)
  {
    LongRunsNeedReplaces(rs);
  }

  /** No run of three or more is left exactly when no run needs a
      replacement. */
  lemma {:induction false} NoLongRunsIffNoReplaces(rs: seq<Run>)
    ensures CountLong(rs, 0) + CountLong(rs, 1) + CountLong(rs, 2) == 0 <==> Replaces(rs) == 0
  {
    if rs != [] {
      NoLongRunsIffNoReplaces(rs[1..]);
    }
  }

  /** The buckets are all empty exactly when no run needs a replacement. */
  lemma {:induction false} BucketsEmptyIffNoReplaces(rs: seq<Run>)
    ensures DeleteBuckets(rs) == Buckets(0, 0, 0) <==> Replaces(rs) == 0
  {
    NoLongRunsIffNoReplaces(rs);
  }

  /** The buckets of `s` are all empty exactly when `s` has no three equal
      characters in a row. */
  lemma BucketsZeroIffNoTriple(s: string)
    ensures DeleteBuckets(Runs(s)) == Buckets(0, 0, 0) <==> !HasTriple(s)
  {
    BucketsEmptyIffNoReplaces(Runs(s));
    ReplacesZeroIffNoTriple(s);
  }

  /** The inner loop shared by both scanners: starting at `i`, extend the
      group while the next character equals the previous one. */
  method GroupLength(s: string, i: nat) returns (g: nat)
    requires i < |s|
    ensures g == LeadLen(s[i..])
  {
    g := 1;
    while i + g < |s| && s[i + g] == s[i + g - 1]
      invariant 1 <= g <= |s| - i
      invariant forall j :: i <= j < i + g ==> s[j] == s[i]
    {
      g := g + 1;
    }
    LeadLenUnique(s[i..], g);
  }

  /** Splitting off the group found at `i` leaves the runs of the rest. */
  lemma RunsAt(s: string, i: nat, g: nat)
    requires i < |s| && g == LeadLen(s[i..])
    ensures Runs(s[i..]) == [Run(s[i], g)] + Runs(s[i + g..])
  {
    assert s[i..][g..] == s[i + g..];
  }

  /** `total` is what the replacement scan has counted once it reaches `i`:
      the replacements of `s` minus those of the part not yet scanned. */
  ghost predicate Tallied(s: string, i: nat, total: int)
    requires i <= |s|
  {
    total + Replaces(Runs(s[i..])) == Replaces(Runs(s))
  }

  /** Adding the replacements of the group found at `i` carries the tally
      to the next group. */
  lemma TalliedStep(s: string, i: nat, g: nat, total: int)
    requires i < |s| && g == LeadLen(s[i..])
    requires Tallied(s, i, total)
    ensures i + g <= |s|
    ensures Tallied(s, i + g, total + RunReplaces(g))
  {
    RunsAt(s, i, g);
    ReplacesCons(Run(s[i], g), Runs(s[i + g..]));
  }

  /** The tally starts at zero. */
  lemma TalliedStart(s: string)
    ensures Tallied(s, 0, 0)
  {
    assert s[0..] == s;
  }

  /** At the end of the string the tally holds the whole count. */
  lemma TalliedDone(s: string, total: int)
    requires Tallied(s, |s|, total)
    ensures total == Replaces(Runs(s))
  {
    assert s[|s|..] == [];
  }

  /** countReplaceForRepetitiveGroups: walk the string group by group and
      add L / 3 for every group of length L >= 3. */
  method ScanReplaces(s: string) returns (total: int)
    ensures total == Replaces(Runs(s))
    ensures total == 0 <==> !HasTriple(s)
  {
    total := 0;
    var i := 0;
    TalliedStart(s);
    while i < |s|
      invariant 0 <= i <= |s|
      invariant Tallied(s, i, total)
    {
      var g := GroupLength(s, i);
      TalliedStep(s, i, g, total);
      if g >= 3 {
        total := total + g / 3;
      }
      i := i + g;
    }
    TalliedDone(s, total);
    ReplacesZeroIffNoTriple(s);
  }

  /** `b` is what the deletion scan has counted once it reaches `i`: added
      to the buckets of the part not yet scanned it gives those of `s`. */
  ghost predicate Counted(s: string, i: nat, b: Buckets)
    requires i <= |s|
  {
    Plus(b, DeleteBuckets(Runs(s[i..]))) == DeleteBuckets(Runs(s))
  }

  /** Adding the group found at `i` to its bucket carries the count to the
      next group. */
  lemma CountedStep(s: string, i: nat, g: nat, b: Buckets)
    requires i < |s| && g == LeadLen(s[i..])
    requires Counted(s, i, b)
    ensures i + g <= |s|
    ensures Counted(s, i + g, Plus(b, RunBucket(g)))
  {
    var rest := DeleteBuckets(Runs(s[i + g..]));
    RunsAt(s, i, g);
    BucketsCons(Run(s[i], g), Runs(s[i + g..]));
    SameBuckets(Plus(Plus(b, RunBucket(g)), rest), Plus(b, Plus(RunBucket(g), rest)));
  }

  /** The count starts with empty buckets. */
  lemma CountedStart(s: string)
    ensures Counted(s, 0, Buckets(0, 0, 0))
  {
    assert s[0..] == s;
    SameBuckets(Plus(Buckets(0, 0, 0), DeleteBuckets(Runs(s))), DeleteBuckets(Runs(s)));
  }

  /** At the end of the string the count holds the buckets of all of it. */
  lemma CountedDone(s: string, b: Buckets)
    requires Counted(s, |s|, b)
    ensures b == DeleteBuckets(Runs(s))
  {
    assert s[|s|..] == [];
    SameBuckets(Plus(b, Buckets(0, 0, 0)), b);
  }

  /** The body of countDeleteForRepetitiveGroups' loop for one group of
      length `g`: a group of three or more adds to the bucket of g % 3 the
      number of deletions that saves it exactly one replacement; a shorter
      group changes nothing. */
  method AddGroup(g: nat, short: nat, medium: nat, long: nat)
    returns (short': nat, medium': nat, long': nat)
    ensures Buckets(short', medium', long') == Plus(Buckets(short, medium, long), RunBucket(g))
    ensures g < 3 ==> short' == short && medium' == medium && long' == long
    ensures g >= 3 ==> var d := (short' - short) + (medium' - medium) + (long' - long);
                       1 <= d <= 3 && RunReplaces(g - d) + 1 == RunReplaces(g)
  {
    short', medium', long' := short, medium, long;
    if g >= 3 {
      if g % 3 == 0 {
        short' := short' + 1;
      }
      if g % 3 == 1 {
        medium' := medium' + 2;
      }
      if g % 3 == 2 {
        long' := long' + 3;
      }
    }
  }

  /** countDeleteForRepetitiveGroups: all buckets start at zero, then walk
      the string group by group and add each group of length >= 3 to the
      bucket of its length mod 3. */
  method ScanDeletes(s: string) returns (short: nat, medium: nat, long: nat)
    ensures Buckets(short, medium, long) == DeleteBuckets(Runs(s))
    ensures short == 0 && medium == 0 && long == 0 <==> !HasTriple(s)
  {
    short, medium, long := 0, 0, 0;
    var i := 0;
    CountedStart(s);
    while i < |s|
      invariant 0 <= i <= |s|
      invariant Counted(s, i, Buckets(short, medium, long))
    {
      var g := GroupLength(s, i);
      CountedStep(s, i, g, Buckets(short, medium, long));
      short, medium, long := AddGroup(g, short, medium, long);
      i := i + g;
    }
    CountedDone(s, Buckets(short, medium, long));
    BucketsZeroIffNoTriple(s);
  }
}
