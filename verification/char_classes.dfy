/** The three character classes a strong password must contain, and the
    counter of the classes a string lacks (countMissingSpecialCharacters in
    StrongPassword.cpp). The classes are the ASCII ranges of digits, upper-case
    and lower-case letters; every other character belongs to none of them. */
module CharClasses {

  datatype Class = Digit | Upper | Lower

  const AllClasses: set<Class> := {Digit, Upper, Lower}

  /** `ch` belongs to class `c` (isdigit / isupper / islower on ASCII). */
  predicate InClass(ch: char, c: Class) {
    match c
    case Digit => '0' <= ch <= '9'
    case Upper => 'A' <= ch <= 'Z'
    case Lower => 'a' <= ch <= 'z'
  }

  /** Some character of `s` belongs to class `c`. */
  predicate Occurs(s: string, c: Class) {
    exists i :: 0 <= i < |s| && InClass(s[i], c)
  }

  /** The classes no character of `s` belongs to. */
  function MissingClasses(s: string): set<Class> {
    set c | c in AllClasses && !Occurs(s, c)
  }

  /** 0 when `present` holds, 1 otherwise: one missing class. */
  function Absent(present: bool): nat {
    if present then 0 else 1
  }

  /** The number of classes `s` lacks: what the counter returns. */
  function MissingCount(s: string): (r: nat)
    ensures r <= 3
    ensures r == 0 <==> Occurs(s, Digit) && Occurs(s, Upper) && Occurs(s, Lower)
    ensures r == Absent(Occurs(s, Digit)) + Absent(Occurs(s, Upper)) + Absent(Occurs(s, Lower))
    ensures s == [] ==> r == 3
  {
    MissingCardinality(s);
    |MissingClasses(s)|
  }

  /** The set of missing classes has one element per absent class. */
  lemma MissingCardinality(s: string)
    ensures |MissingClasses(s)| == Absent(Occurs(s, Digit)) + Absent(Occurs(s, Upper)) + Absent(Occurs(s, Lower))
  {
    var m := MissingClasses(s);
    var d, u, l := Occurs(s, Digit), Occurs(s, Upper), Occurs(s, Lower);
    if d && u && l {
      assert m == {};
    } else if d && u {
      assert m == {Lower};
    } else if d && l {
      assert m == {Upper};
    } else if u && l {
      assert m == {Digit};
    } else if d {
      assert m == {Upper, Lower};
    } else if u {
      assert m == {Digit, Lower};
    } else if l {
      assert m == {Digit, Upper};
    } else {
      assert m == AllClasses;
    }
  }

  /** Only which characters occur matters, not their order or how often
      they occur: two strings over the same characters lack the same classes. */
  lemma MissingDependsOnlyOnCharacters(s: string, t: string)
    requires forall ch :: ch in s <==> ch in t
    ensures MissingClasses(s) == MissingClasses(t)
    ensures MissingCount(s) == MissingCount(t)
  {
    forall c | c in AllClasses
      ensures Occurs(s, c) <==> Occurs(t, c)
    {
      if Occurs(s, c) {
        var i :| 0 <= i < |s| && InClass(s[i], c);
        assert s[i] in t;
        var j :| 0 <= j < |t| && t[j] == s[i];
      }
      if Occurs(t, c) {
        var j :| 0 <= j < |t| && InClass(t[j], c);
        assert t[j] in s;
        var i :| 0 <= i < |s| && s[i] == t[j];
      }
    }
  }

  /** The loop of countMissingSpecialCharacters: three flags set while
      walking the string, then 3 minus the number of flags raised. */
  method CountMissing(s: string) returns (missing: int)
    ensures missing == MissingCount(s)
    ensures 0 <= missing <= 3
    ensures missing == 0 <==> Occurs(s, Digit) && Occurs(s, Upper) && Occurs(s, Lower)
  {
    var hasDigit, hasUpper, hasLower := false, false, false;
    var i := 0;
    while i < |s|
      invariant 0 <= i <= |s|
      invariant hasDigit <==> Occurs(s[..i], Digit)
      invariant hasUpper <==> Occurs(s[..i], Upper)
      invariant hasLower <==> Occurs(s[..i], Lower)
    {
      var ch := s[i];
      assert s[..i + 1] == s[..i] + [ch];
      if InClass(ch, Digit) {
        hasDigit := true;
      }
      if InClass(ch, Upper) {
        hasUpper := true;
      }
      if InClass(ch, Lower) {
        hasLower := true;
      }
      i := i + 1;
    }
    assert s[..i] == s;
    missing := 3 - ((if hasDigit then 1 else 0) + (if hasUpper then 1 else 0) + (if hasLower then 1 else 0));
  }
}
