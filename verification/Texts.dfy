/** Strings as the C code scans them: runs of characters of a class, and where one string stands
    within another. */
module Texts {
  const NUL := '\0'

  predicate IsSpace(c: char) {
    c == ' ' || '\t' <= c <= '\r'
  }

  predicate AllOf(s: string, class_: char -> bool) {
    forall i :: 0 <= i < |s| ==> class_(s[i])
  }

  /** The end of the run of characters of a class that starts at i. */
  function Run(s: string, i: nat, class_: char -> bool): (j: nat)
    requires i <= |s|
    ensures i <= j <= |s| && (forall k :: i <= k < j ==> class_(s[k])) && (j < |s| ==> !class_(s[j]))
    decreases |s| - i
  {
    if i < |s| && class_(s[i]) then Run(s, i + 1, class_) else i
  }

  lemma {:induction false} RunEnds(s: string, i: nat, j: nat, class_: char -> bool)
    requires i <= j <= |s| && (forall k :: i <= k < j ==> class_(s[k])) && (j < |s| ==> !class_(s[j]))
    ensures Run(s, i, class_) == j
    decreases j - i
  {
    if i < j {
      RunEnds(s, i + 1, j, class_);
    }
  }

  lemma RunIsAllOf(s: string, i: nat, class_: char -> bool)
    requires i <= |s|
    ensures AllOf(s[i..Run(s, i, class_)], class_)
  {
  }

  /** White space is not followed by white space. */
  lemma RunTwice(s: string, i: nat, j: nat, class_: char -> bool)
    requires i <= |s| && j == Run(s, i, class_)
    ensures Run(s, j, class_) == j
  {
  }

  /** t stands in s at i. */
  predicate At(s: string, i: nat, t: string) {
    i + |t| <= |s| && s[i..i + |t|] == t
  }

  lemma AtSplit(s: string, i: nat, t: string, u: string)
    requires At(s, i, t + u)
    ensures At(s, i, t) && At(s, i + |t|, u)
  {
    var all := s[i..i + |t + u|];
    assert all[..|t|] == t && all[|t|..] == u;
    assert s[i..i + |t|] == all[..|t|] && s[i + |t|..i + |t| + |u|] == all[|t|..];
  }

  lemma FirstAt(s: string, i: nat, t: string)
    requires At(s, i, t) && t != ""
    ensures i < |s| && s[i] == t[0]
  {
    assert s[i..i + |t|][0] == t[0];
  }

  lemma AtIsSlice(s: string, i: nat, t: string)
    requires At(s, i, t)
    ensures i + |t| <= |s| && s[i..i + |t|] == t
  {
  }

  lemma RunOver(s: string, i: nat, t: string, class_: char -> bool)
    requires At(s, i, t) && AllOf(t, class_) && (i + |t| < |s| ==> !class_(s[i + |t|]))
    ensures Run(s, i, class_) == i + |t|
  {
    forall k | i <= k < i + |t| ensures class_(s[k]) {
      assert s[i..i + |t|][k - i] == t[k - i];
    }
    RunEnds(s, i, i + |t|, class_);
  }

  lemma Joined(s: string, a: nat, b: nat, c: nat)
    requires a <= b <= c <= |s|
    ensures s[a..b] + s[b..c] == s[a..c]
  {
  }
}
