/** lib/optionstring.c: where a malformed option string goes wrong. The position reported is the
    end of the longest front part with which some option string begins. */
module OptionErrors {
  import opened Basics
  import opened Texts
  import opened OptionText

  ghost predicate Accepted(s: string) {
    NUL !in s && !ParseText(s).Malformed?
  }

  /** Some option string begins with u. */
  ghost predicate Begins(u: string) {
    exists t :: Accepted(u + t)
  }

  /** The first n characters are the same. */
  ghost predicate Agree(s: string, u: string, n: nat) {
    n <= |s| && n <= |u| && forall k :: 0 <= k < n ==> s[k] == u[k]
  }

  /** A run that ends in front of p, or at p where the other string has no such character. */
  lemma RunSame(s: string, u: string, i: nat, class_: char -> bool, p: nat)
    requires Agree(s, u, p) && i <= |s| && Run(s, i, class_) <= p
    requires Run(s, i, class_) == p < |u| ==> !class_(u[p])
    ensures i <= |u| && Run(u, i, class_) == Run(s, i, class_)
  {
    RunEnds(u, i, Run(s, i, class_), class_);
  }

  /** Parsing from i on goes wrong at p. */
  ghost predicate Fails(s: string, i: nat, p: nat) {
    i <= |s| && ParseOptions(s, i, None, map[]) == Malformed(p)
  }

  /** Whether and where parsing goes wrong does not depend on what was found before. */
  lemma {:induction false} SameFailure(s: string, i: nat, name: Option<string>, options: map<string, string>,
                                       name': Option<string>, options': map<string, string>)
    requires i <= |s|
    ensures ParseOptions(s, i, name, options).Malformed? <==> ParseOptions(s, i, name', options').Malformed?
    ensures ParseOptions(s, i, name, options).Malformed? ==>
      ParseOptions(s, i, name', options') == ParseOptions(s, i, name, options)
    decreases |s| - i
  {
    hide Run, ScanOption;
    var r := ScanOption(s, i);
    if r.Item? && r.stop < |s| && s[r.stop] == ',' {
      var next := Run(s, r.stop + 1, IsSpace);
      var key, value := s[r.start..r.end], s[r.value..r.stop];
      if next < |s| {
        SameFailure(s, next, name, options[key := value], name', options'[key := value]);
      }
    }
  }

  /** The option at i is scanned up to the comma at stop, behind which parsing goes on at next. */
  ghost predicate GoesOn(s: string, i: nat, stop: nat, next: nat) {
    && i <= |s| && ScanOption(s, i).Item? && ScanOption(s, i).stop == stop
    && i < stop < next <= |s| && s[stop] == ',' && next == Run(s, stop + 1, IsSpace)
  }

  /** What a failure is: in the option at i, at the end behind a comma, or further on. */
  lemma FailsWhere(s: string, i: nat, p: nat) returns (stop: nat, next: nat)
    requires Fails(s, i, p)
    ensures ScanOption(s, i) == Bad(p) ||
      (GoesOn(s, i, stop, next) && if next == |s| then p == next else Fails(s, next, p))
  {
    hide Run, ScanOption;
    var r := ScanOption(s, i);
    stop, next := 0, 0;
    if r.Item? {
      stop, next := r.stop, Run(s, r.stop + 1, IsSpace);
      if next < |s| {
        SameFailure(s, next, None, map[s[r.start..r.end] := s[r.value..r.stop]], None, map[]);
      }
    }
  }

  lemma GoesOnParses(s: string, i: nat, stop: nat, next: nat)
    requires GoesOn(s, i, stop, next)
    ensures next == |s| ==> Fails(s, i, next)
    ensures next < |s| ==> forall p :: Fails(s, next, p) <==> Fails(s, i, p)
    ensures next < |s| && !ParseOptions(s, next, None, map[]).Malformed? ==>
      !ParseOptions(s, i, None, map[]).Malformed?
  {
    hide Run, ScanOption;
    var r := ScanOption(s, i);
    if next < |s| {
      SameFailure(s, next, None, map[s[r.start..r.end] := s[r.value..r.stop]], None, map[]);
    }
  }

  /** The error is not in front of where parsing starts. */
  lemma {:induction false} ErrorBehind(s: string, i: nat, p: nat)
    requires Fails(s, i, p)
    ensures i <= p <= |s|
    decreases |s| - i
  {
    hide Run, Fails;
    var stop, next := FailsWhere(s, i, p);
    if ScanOption(s, i) != Bad(p) && next < |s| {
      ErrorBehind(s, next, p);
    }
  }

  lemma AgreeAt(s: string, u: string, p: nat, k: nat)
    requires Agree(s, u, p) && k < p
    ensures k < |s| && k < |u| && s[k] == u[k] && p <= |u|
  {
  }

  /** What was scanned in front of p is scanned in a text that agrees up to there, too. */
  lemma SameGoesOn(s: string, u: string, i: nat, stop: nat, next: nat, p: nat)
    requires Agree(s, u, p) && GoesOn(s, i, stop, next) && next <= p && (next == p < |u| ==> !IsSpace(u[p]))
    ensures GoesOn(u, i, stop, next)
  {
    hide Run, ScanOption, Agree;
    AgreeAt(s, u, p, stop);
    SameItem(s, u, i, p);
    var after := stop + 1;
    RunSame(s, u, after, IsSpace, p);
  }

  lemma SameItem(s: string, u: string, i: nat, p: nat)
    requires Agree(s, u, p) && i <= |s| && ScanOption(s, i).Item? && ScanOption(s, i).stop < p
    ensures i <= |u| && ScanOption(u, i) == ScanOption(s, i)
  {
    hide Run, ScanOption, Agree;
    ItemRuns(s, i);
    var it := ScanOption(s, i);
    var eq, behind := Run(s, it.end, IsSpace), Run(s, it.end, IsSpace) + 1;
    AgreeAt(s, u, p, eq);
    RunSame(s, u, i, IsSpace, p);
    RunSame(s, u, it.start, IsIdentifier, p);
    RunSame(s, u, it.end, IsSpace, p);
    RunSame(s, u, behind, IsSpace, p);
    RunSame(s, u, it.value, IsValue, p);
    ScanValue(u, i, it.start, it.end, eq, behind, it.value, it.stop);
  }

  /** Where the option at i goes wrong: without a key, without a '=' behind it, or without a value. */
  lemma BadWhere(s: string, i: nat, p: nat) returns (start: nat, end: nat, eq: nat)
    requires i <= |s| && ScanOption(s, i) == Bad(p)
    ensures start == Run(s, i, IsSpace) && end == Run(s, start, IsIdentifier) && eq == Run(s, end, IsSpace)
    ensures i <= start <= end <= eq <= |s| && start < |s|
    ensures
      || (p == start == end)
      || (p == eq && start < end && (eq == |s| || s[eq] != '='))
      || (start < end && eq < |s| && s[eq] == '=' && eq < p <= |s|
          && p == Run(s, eq + 1, IsSpace) == Run(s, p, IsValue))
  {
    start := Run(s, i, IsSpace);
    end := Run(s, start, IsIdentifier);
    eq := Run(s, end, IsSpace);
    hide Run;
  }

  /** An option that goes wrong at a character does so whatever follows. */
  lemma SameBad(s: string, u: string, i: nat, p: nat, behind: nat)
    requires behind == p + 1 && Agree(s, u, behind) && i <= |s| && ScanOption(s, i) == Bad(p)
    ensures i <= |u| && ScanOption(u, i) == Bad(p)
  {
    hide Run, ScanOption;
    var start, end, eq := BadWhere(s, i, p);
    RunSame(s, u, i, IsSpace, behind);
    RunSame(s, u, start, IsIdentifier, behind);
    if p == start == end {
      ScanNoIdentifier(u, i, start);
    } else {
      RunSame(s, u, end, IsSpace, behind);
      if p == eq && s[eq] != '=' {
        ScanNoEquals(u, i, start, end, eq);
      } else {
        var after := eq + 1;
        RunSame(s, u, after, IsSpace, behind);
        RunSame(s, u, p, IsValue, behind);
        ScanValue(u, i, start, end, eq, after, p, p);
      }
    }
  }

  lemma {:induction false} StaysBad(s: string, u: string, i: nat, p: nat, behind: nat)
    requires behind == p + 1 && Agree(s, u, behind) && Fails(s, i, p)
    ensures Fails(u, i, p)
    decreases |s| - i
  {
    hide Run, ScanOption, ParseOptions;
    ErrorBehind(s, i, p);
    var stop, next := FailsWhere(s, i, p);
    if ScanOption(s, i) == Bad(p) {
      SameBad(s, u, i, p, behind);
      BadFails(u, i, p);
    } else {
      ErrorBehind(s, next, p);
      SameGoesOn(s, u, i, stop, next, behind);
      StaysBad(s, u, next, p, behind);
      GoesOnParses(u, i, stop, next);
    }
  }

  lemma BadFails(s: string, i: nat, p: nat)
    requires i <= |s| && ScanOption(s, i) == Bad(p)
    ensures Fails(s, i, p)
  {
    hide ScanOption;
  }

  /** An option that ends the text. */
  lemma EndsWithOption(s: string, i: nat)
    requires i <= |s| && ScanOption(s, i).Item? && ScanOption(s, i).stop == |s|
    ensures !ParseOptions(s, i, None, map[]).Malformed?
  {
    hide ScanOption;
  }

  /** A text that ends in the value of the option at i. */
  lemma ScannedToEnd(u: string, i: nat, start: nat, end: nat, eq: nat, behind: nat, value: nat)
    requires i <= |u| && start == Run(u, i, IsSpace) && end == Run(u, start, IsIdentifier) && eq == Run(u, end, IsSpace)
    requires start != end && eq < |u| && u[eq] == '=' && behind == eq + 1
    requires value == Run(u, behind, IsSpace) && value + 1 == |u| && IsValue(u[value])
    ensures !ParseOptions(u, i, None, map[]).Malformed?
  {
    hide ScanOption, ParseOptions;
    RunEnds(u, value, |u|, IsValue);
    ScanValue(u, i, start, end, eq, behind, value, |u|);
    EndsWithOption(u, i);
  }

  /** What a text that goes wrong at p in the option at i needs there to be right: a whole option, */
  lemma KeyMissing(s: string, u: string, i: nat, p: nat)
    requires i <= p <= |s| && p == Run(s, i, IsSpace) && Agree(s, u, p) && u[p..] == "k=v"
    ensures !ParseOptions(u, i, None, map[]).Malformed?
  {
    hide ParseOptions, ScanOption;
    assert u[p] == u[p..][0] && u[p + 1] == u[p..][1] && u[p + 2] == u[p..][2] && |u| == p + 3;
    RunSame(s, u, i, IsSpace, p);
    RunEnds(u, p, p + 1, IsIdentifier);
    RunEnds(u, p + 1, p + 1, IsSpace);
    RunEnds(u, p + 2, p + 2, IsSpace);
    ScannedToEnd(u, i, p, p + 1, p + 1, p + 2, p + 2);
  }

  /** or a '=' and a value, */
  lemma EqualsMissing(s: string, u: string, i: nat, start: nat, end: nat, p: nat)
    requires i <= start < end <= p <= |s| && start == Run(s, i, IsSpace) && end == Run(s, start, IsIdentifier)
    requires p == Run(s, end, IsSpace) && Agree(s, u, p) && u[p..] == "=v"
    ensures !ParseOptions(u, i, None, map[]).Malformed?
  {
    hide ParseOptions, ScanOption;
    assert u[p] == u[p..][0] && u[p + 1] == u[p..][1] && |u| == p + 2;
    RunSame(s, u, i, IsSpace, p);
    RunSame(s, u, start, IsIdentifier, p);
    RunSame(s, u, end, IsSpace, p);
    RunEnds(u, p + 1, p + 1, IsSpace);
    ScannedToEnd(u, i, start, end, p, p + 1, p + 1);
  }

  /** or a value. */
  lemma ValueMissing(s: string, u: string, i: nat, start: nat, end: nat, eq: nat, behind: nat, p: nat)
    requires i <= start < end <= eq < behind <= p <= |s| && start == Run(s, i, IsSpace)
    requires end == Run(s, start, IsIdentifier) && eq == Run(s, end, IsSpace) && s[eq] == '=' && behind == eq + 1
    requires p == Run(s, behind, IsSpace) && Agree(s, u, p) && u[p..] == "v"
    ensures !ParseOptions(u, i, None, map[]).Malformed?
  {
    hide ParseOptions, ScanOption;
    assert u[p] == u[p..][0] && |u| == p + 1;
    RunSame(s, u, i, IsSpace, p);
    RunSame(s, u, start, IsIdentifier, p);
    RunSame(s, u, end, IsSpace, p);
    RunSame(s, u, behind, IsSpace, p);
    ScannedToEnd(u, i, start, end, eq, behind, p);
  }

  lemma OptionCompleted(s: string, i: nat, p: nat) returns (t: string)
    requires i <= |s| && ScanOption(s, i) == Bad(p) && p <= |s|
    ensures t != "" && NUL !in t && !IsSpace(t[0])
    ensures i <= p && !ParseOptions(s[..p] + t, i, None, map[]).Malformed?
  {
    hide ScanOption, ParseOptions, Agree, Run;
    var start, end, eq := BadWhere(s, i, p);
    t := if p == start == end then "k=v" else if p == eq then "=v" else "v";
    Front(s, p, t);
    if p == start == end {
      KeyMissing(s, s[..p] + t, i, p);
    } else if p == eq {
      EqualsMissing(s, s[..p] + t, i, start, end, p);
    } else {
      var behind := eq + 1;
      ValueMissing(s, s[..p] + t, i, start, end, eq, behind, p);
    }
  }

  lemma Front(s: string, p: nat, t: string)
    requires p <= |s|
    ensures Agree(s, s[..p] + t, p)
    ensures (s[..p] + t)[p..] == t
  {
  }

  lemma {:induction false} OptionsCompleted(s: string, i: nat, p: nat) returns (t: string)
    requires Fails(s, i, p)
    ensures t != "" && NUL !in t && !IsSpace(t[0])
    ensures i <= p <= |s| && !ParseOptions(s[..p] + t, i, None, map[]).Malformed?
    decreases |s| - i
  {
    hide Run, ScanOption, ParseOptions, Fails;
    ErrorBehind(s, i, p);
    var stop, next := FailsWhere(s, i, p);
    if ScanOption(s, i) == Bad(p) {
      t := OptionCompleted(s, i, p);
    } else {
      if next == |s| {
        t := "k=v";
        OneOption(s[..p] + t, p);
      } else {
        t := OptionsCompleted(s, next, p);
      }
      Front(s, p, t);
      SameGoesOn(s, s[..p] + t, i, stop, next, p);
      GoesOnParses(s[..p] + t, i, stop, next);
    }
  }

  lemma OneOption(u: string, p: nat)
    requires p + 3 == |u| && u[p..] == "k=v"
    ensures !ParseOptions(u, p, None, map[]).Malformed?
  {
    assert u[p] == u[p..][0] && u[p + 1] == u[p..][1] && u[p + 2] == u[p..][2];
    RunEnds(u, p, p, IsSpace);
    RunEnds(u, p, p + 1, IsIdentifier);
    RunEnds(u, p + 1, p + 1, IsSpace);
    RunEnds(u, p + 2, p + 2, IsSpace);
    RunEnds(u, p + 2, p + 3, IsValue);
    ScanValue(u, p, p, p + 1, p + 1, p + 2, p + 2, p + 3);
    EndsWithOption(u, p);
  }

  /** The object name of a text: where it starts and ends, and what is behind it. */
  lemma NameOf(s: string) returns (start: nat, end: nat, p: nat)
    ensures start == Run(s, 0, IsSpace) && end == Run(s, start, IsIdentifier) && p == Run(s, end, IsSpace) <= |s|
    ensures p < |s| && s[p] != ':' ==> ParseText(s) == Malformed(p)
    ensures p == |s| ==> !ParseText(s).Malformed?
    ensures p < |s| && s[p] == ':' ==>
      var behind := p + 1;
      && (ParseText(s).Malformed? <==> ParseOptions(s, behind, None, map[]).Malformed?)
      && (ParseText(s).Malformed? ==> ParseOptions(s, behind, None, map[]) == ParseText(s))
  {
    hide Run, ParseOptions;
    start := Run(s, 0, IsSpace);
    end := Run(s, start, IsIdentifier);
    p := Run(s, end, IsSpace);
    if p < |s| && s[p] == ':' {
      SameFailure(s, p + 1, Token(s, start, end), map[], None, map[]);
    }
  }

  /** The name is the same in a text that agrees up to behind it. */
  lemma SameName(s: string, u: string, n: nat)
    requires Agree(s, u, n) && Run(s, Run(s, Run(s, 0, IsSpace), IsIdentifier), IsSpace) <= n
    requires Run(s, Run(s, Run(s, 0, IsSpace), IsIdentifier), IsSpace) == n ==> n == |u|
    ensures Run(u, 0, IsSpace) == Run(s, 0, IsSpace)
    ensures Run(u, Run(u, 0, IsSpace), IsIdentifier) == Run(s, Run(s, 0, IsSpace), IsIdentifier)
    ensures Run(u, Run(u, Run(u, 0, IsSpace), IsIdentifier), IsSpace)
         == Run(s, Run(s, Run(s, 0, IsSpace), IsIdentifier), IsSpace)
  {
    hide Run;
    RunSame(s, u, 0, IsSpace, n);
    RunSame(s, u, Run(s, 0, IsSpace), IsIdentifier, n);
    RunSame(s, u, Run(s, Run(s, 0, IsSpace), IsIdentifier), IsSpace, n);
  }

  /** Up to the error an option string can begin like this. */
  lemma ErrorIsLate(s: string, p: nat) returns (t: string)
    requires NUL !in s && ParseText(s) == Malformed(p)
    ensures p <= |s| && Accepted(s[..p] + t)
  {
    hide Run, ParseOptions, ParseText;
    var start, end, colon := NameOf(s);
    t := "";
    if s[colon] == ':' {
      var behind := colon + 1;
      t := OptionsCompleted(s, behind, p);
      var u := s[..p] + t;
      Front(s, p, t);
      SameName(s, u, p);
      var _, _, _ := NameOf(u);
      AgreeAt(s, u, p, colon);
    } else {
      Front(s, p, t);
      SameName(s, s[..p] + t, p);
      var _, _, _ := NameOf(s[..p] + t);
    }
  }

  /** With the character there none can. */
  lemma ErrorIsEarly(s: string, p: nat, t: string, behind: nat)
    requires NUL !in s && ParseText(s) == Malformed(p) && p < |s| && behind == p + 1
    ensures ParseText(s[..behind] + t) == Malformed(p)
  {
    hide Run, ParseOptions, ParseText;
    var start, end, colon := NameOf(s);
    var u := s[..behind] + t;
    Front(s, behind, t);
    if s[colon] == ':' {
      var after := colon + 1;
      ErrorBehind(s, after, p);
      StaysBad(s, u, after, p, behind);
    }
    SameName(s, u, behind);
    var _, _, _ := NameOf(u);
    AgreeAt(s, u, behind, colon);
  }

  /** The position reported for a malformed text is the end of the longest front part with which
      some option string begins. */
  lemma ErrorPosition(s: string)
    requires NUL !in s && ParseText(s).Malformed?
    ensures var p := ParseText(s).position;
      p <= |s| && forall n :: 0 <= n <= |s| ==> (Begins(s[..n]) <==> n <= p)
  {
    hide ParseText;
    var p := ParseText(s).position;
    var t := ErrorIsLate(s, p);
    forall n | 0 <= n <= |s| ensures Begins(s[..n]) <==> n <= p {
      if n <= p {
        assert s[..n] + (s[n..p] + t) == s[..p] + t;
        assert Accepted(s[..n] + (s[n..p] + t));
      } else if Begins(s[..n]) {
        var v :| Accepted(s[..n] + v);
        var behind := p + 1;
        assert s[..behind] + (s[behind..n] + v) == s[..n] + v;
        ErrorIsEarly(s, p, s[behind..n] + v, behind);
      }
    }
  }
}
