/** lib/frameproperties.c: frame properties and their text form, as the requests and replies that
    carry it print it ("%d,%d,%d,%d"). */
module FramePropertiesText {
  import opened Basics
  import opened Texts

  datatype FrameProperties = FrameProperties(width: nat, height: nat, depth: nat, channels: nat)

  const DEFAULTS := FrameProperties(0, 0, 8, 3)

  predicate IsDigit(c: char) {
    '0' <= c <= '9'
  }

  predicate IsComma(c: char) {
    c == ','
  }

  predicate NotComma(c: char) {
    c != ','
  }

  /** The number a run of digits stands for. */
  function Value(digits: string): nat
    requires AllOf(digits, IsDigit)
  {
    if digits == "" then 0
    else 10 * Value(digits[..|digits| - 1]) + (digits[|digits| - 1] - '0') as nat
  }

  function Signed(negative: bool, n: nat): int {
    if negative then 0 - n as int else n
  }

  /** What atoi reads: white space, a sign, digits, anything. */
  function AtoiValue(s: string): int {
    var start := Run(s, 0, IsSpace);
    var first := if start < |s| && (s[start] == '-' || s[start] == '+') then start + 1 else start;
    var stop := Run(s, first, IsDigit);
    Signed(start < |s| && s[start] == '-', Value(s[first..stop]))
  }

  method Digits(s: string, first: nat) returns (n: nat, ghost stop: nat)
    requires first <= |s|
    ensures stop == Run(s, first, IsDigit) && n == Value(s[first..stop])
  {
    var i := first;
    n := 0;
    while i < |s| && IsDigit(s[i])
      invariant first <= i <= |s| && Run(s, first, IsDigit) == Run(s, i, IsDigit)
      invariant AllOf(s[first..i], IsDigit) && n == Value(s[first..i])
    {
      assert s[first..i + 1] == s[first..i] + [s[i]];
      n := 10 * n + (s[i] - '0') as nat;
      i := i + 1;
    }
    stop := i;
  }

  method Atoi(s: string) returns (r: int)
    ensures r == AtoiValue(s)
  {
    var i := 0;
    while i < |s| && IsSpace(s[i])
      invariant i <= |s| && Run(s, 0, IsSpace) == Run(s, i, IsSpace)
    {
      i := i + 1;
    }
    var negative := i < |s| && s[i] == '-';
    if i < |s| && (s[i] == '-' || s[i] == '+') {
      i := i + 1;
    }
    hide Value;
    var n, _ := Digits(s, i);
    r := Signed(negative, n);
  }

  function Decimal(n: nat): (s: string)
    ensures s != "" && AllOf(s, IsDigit) && Value(s) == n
  {
    var digit := [('0' as int + n % 10) as char];
    if n < 10 then digit else
      var s := Decimal(n / 10) + digit;
      assert s[..|s| - 1] == Decimal(n / 10);
      s
  }

  lemma AtoiOfDecimal(n: nat)
    ensures AtoiValue(Decimal(n)) == n
  {
    var s := Decimal(n);
    assert IsDigit(s[0]);
    RunEnds(s, 0, |s|, IsDigit);
    assert s[0..|s|] == s;
  }

  /** White space and a sign in front of the number, and what follows it. */
  lemma AtoiOfSigned(before: string, sign: string, n: nat, tail: string)
    requires AllOf(before, IsSpace) && (sign == "" || sign == "-" || sign == "+")
    requires tail == "" || !IsDigit(tail[0])
    ensures AtoiValue(before + sign + Decimal(n) + tail) == if sign == "-" then 0 - n as int else n
  {
    var s, start, d := before + sign + Decimal(n) + tail, |before|, Decimal(n);
    var first := start + |sign|;
    var stop := first + |d|;
    assert s[..start] == before && s[first..stop] == d && s[stop..] == tail;
    assert IsDigit(d[0]) && s[first] == d[0];
    assert sign != "" ==> s[start] == sign[0];
    RunEnds(s, 0, start, IsSpace);
    RunEnds(s, first, stop, IsDigit);
  }

  /** Without a digit there the value is 0. */
  lemma AtoiOfNoDigit(s: string, start: nat)
    requires start <= |s| && AllOf(s[..start], IsSpace) && (start < |s| ==> !IsSpace(s[start]))
    requires start == |s| || (!IsDigit(s[start]) && s[start] != '-' && s[start] != '+')
    ensures AtoiValue(s) == 0
  {
    RunEnds(s, 0, start, IsSpace);
    RunEnds(s, start, start, IsDigit);
  }

  /** Digits are decimal. */
  lemma DecimalPlaces(digits: string, c: char)
    requires AllOf(digits, IsDigit) && IsDigit(c)
    ensures Value(digits + [c]) == 10 * Value(digits) + (c as int - '0' as int)
  {
    assert (digits + [c])[..|digits|] == digits;
  }

  /** What strtok hands out from position i on. */
  function Tokens(s: string, i: nat): (tokens: seq<string>)
    requires i <= |s|
    decreases |s| - i
  {
    var start := Run(s, i, IsComma);
    if start == |s| then []
    else
      var stop := Run(s, start, NotComma);
      [s[start..stop]] + Tokens(s, stop)
  }

  /** strtok: the next token, none when only separators are left. */
  method Strtok(s: string, i: nat) returns (token: Option<string>, next: nat)
    requires i <= |s|
    ensures i <= next <= |s|
    ensures Tokens(s, i) == Pending(token, s, next)
  {
    var start := i;
    while start < |s| && IsComma(s[start])
      invariant i <= start <= |s| && Run(s, i, IsComma) == Run(s, start, IsComma)
    {
      start := start + 1;
    }
    if start == |s| {
      return None, start;
    }
    next := start;
    while next < |s| && NotComma(s[next])
      invariant start <= next <= |s| && Run(s, start, NotComma) == Run(s, next, NotComma)
    {
      next := next + 1;
    }
    token := Some(s[start..next]);
  }

  /** The conversions on assignment to uint16_t and uint8_t fields. */
  function Uint16(n: int): nat { n % 0x1_0000 }
  function Uint8(n: int): nat { n % 0x100 }

  /** A field is what its token reads as, or the default when there is no such token. */
  function FromTokens(tokens: seq<string>): FrameProperties {
    FrameProperties(
      if |tokens| > 0 then Uint16(AtoiValue(tokens[0])) else DEFAULTS.width,
      if |tokens| > 1 then Uint16(AtoiValue(tokens[1])) else DEFAULTS.height,
      if |tokens| > 2 then Uint8(AtoiValue(tokens[2])) else DEFAULTS.depth,
      if |tokens| > 3 then Uint8(AtoiValue(tokens[3])) else DEFAULTS.channels)
  }

  /** What the assignment to the i-th field does. */
  function SetField(p: FrameProperties, i: nat, n: int): FrameProperties {
    match i
    case 0 => p.(width := Uint16(n))
    case 1 => p.(height := Uint16(n))
    case 2 => p.(depth := Uint8(n))
    case 3 => p.(channels := Uint8(n))
    case _ => p
  }

  lemma FieldRead(done: seq<string>, token: string)
    ensures FromTokens(done + [token]) == SetField(FromTokens(done), |done|, AtoiValue(token))
  {
    hide AtoiValue, Uint16, Uint8;
  }

  lemma FourAreEnough(done: seq<string>, more: seq<string>)
    requires |done| == 4 || more == []
    ensures FromTokens(done + more) == FromTokens(done)
  {
    hide AtoiValue, Uint16, Uint8;
  }

  function Pending(item: Option<string>, s: string, next: nat): seq<string>
    requires next <= |s|
  {
    if item.Some? then [item.value] + Tokens(s, next) else []
  }

  lemma Shift(done: seq<string>, t: string, more: seq<string>)
    ensures done + ([t] + more) == (done + [t]) + more
  {
  }

  /** SVR_FrameProperties_fromString. */
  method FromString(s: string) returns (p: FrameProperties)
    ensures p == FromTokens(Tokens(s, 0))
  {
    p := DEFAULTS;
    var i := 0;
    var item, next := Strtok(s, 0);
    ghost var done: seq<string> := [];
    hide Tokens, AtoiValue, FromTokens, Uint16, Uint8;
    assert p == FromTokens(done) by { NoTokens(); }
    while item.Some? && i < 4
      invariant next <= |s| && i == |done| <= 4 && p == FromTokens(done)
      invariant Tokens(s, 0) == done + Pending(item, s, next)
      decreases 4 - i
    {
      var n := Atoi(item.value);
      FieldRead(done, item.value);
      Shift(done, item.value, Tokens(s, next));
      done := done + [item.value];
      match i {
        case 0 => p := p.(width := Uint16(n));
        case 1 => p := p.(height := Uint16(n));
        case 2 => p := p.(depth := Uint8(n));
        case _ => p := p.(channels := Uint8(n));
      }
      i := i + 1;
      item, next := Strtok(s, next);
    }
    FourAreEnough(done, Pending(item, s, next));
  }

  lemma NoTokens()
    ensures FromTokens([]) == DEFAULTS
  {
  }

  function Join(tokens: seq<string>): string {
    if tokens == [] then ""
    else if |tokens| == 1 then tokens[0]
    else tokens[0] + ("," + Join(tokens[1..]))
  }

  /** Tokens that joining by commas keeps apart. */
  predicate Separable(tokens: seq<string>) {
    forall i :: 0 <= i < |tokens| ==> tokens[i] != "" && AllOf(tokens[i], NotComma)
  }

  /** strtok undoes joining by commas. */
  lemma {:induction false} TokensOfJoin(s: string, i: nat, tokens: seq<string>)
    requires tokens != [] && Separable(tokens) && At(s, i, Join(tokens)) && i + |Join(tokens)| == |s|
    ensures Tokens(s, i) == tokens
    decreases |tokens|
  {
    if |tokens| == 1 {
      LastToken(s, i, tokens[0]);
    } else {
      var behind := FirstToken(s, i, tokens);
      hide At, Separable, Join, Tokens;
      TokensOfJoin(s, behind, tokens[1..]);
    }
  }

  lemma LastToken(s: string, i: nat, t: string)
    requires At(s, i, t) && t != "" && AllOf(t, NotComma) && i + |t| == |s|
    ensures Tokens(s, i) == [t]
  {
    FirstAt(s, i, t);
    RunEnds(s, i, i, IsComma);
    RunOver(s, i, t, NotComma);
    AtIsSlice(s, i, t);
  }

  lemma FirstToken(s: string, i: nat, tokens: seq<string>) returns (behind: nat)
    requires |tokens| > 1 && Separable(tokens) && At(s, i, Join(tokens))
    ensures Separable(tokens[1..]) && At(s, behind, Join(tokens[1..]))
    ensures behind + |Join(tokens[1..])| == i + |Join(tokens)| && Tokens(s, i) == [tokens[0]] + Tokens(s, behind)
  {
    var stop;
    stop, behind := CommaAt(s, i, tokens[0], Join(tokens[1..]));
    hide At, AllOf;
    TokenAt(s, i, tokens[0], stop, behind);
  }

  lemma CommaAt(s: string, i: nat, t: string, rest: string) returns (stop: nat, behind: nat)
    requires At(s, i, t + ("," + rest))
    ensures stop == i + |t| && behind == stop + 1 && At(s, i, t) && At(s, behind, rest) && stop < |s| && s[stop] == ','
  {
    stop, behind := i + |t|, i + |t| + 1;
    AtSplit(s, i, t, "," + rest);
    AtSplit(s, stop, ",", rest);
    FirstAt(s, stop, ",");
  }

  /** A token and the comma behind it. */
  lemma TokenAt(s: string, i: nat, t: string, stop: nat, behind: nat)
    requires At(s, i, t) && t != "" && AllOf(t, NotComma)
    requires stop == i + |t| && behind == stop + 1 && stop < |s| && s[stop] == ','
    ensures Tokens(s, i) == [t] + Tokens(s, behind)
  {
    FirstAt(s, i, t);
    RunEnds(s, i, i, IsComma);
    RunOver(s, i, t, NotComma);
    AtIsSlice(s, i, t);
  }

  function Decimals(p: FrameProperties): (tokens: seq<string>)
    ensures |tokens| == 4
  {
    [Decimal(p.width), Decimal(p.height), Decimal(p.depth), Decimal(p.channels)]
  }

  /** The text form, of which fields may be left out at the end. */
  function Print(p: FrameProperties, fields: nat): string
    requires fields <= 4
  {
    Join(Decimals(p)[..fields])
  }

  /** Parsing what was printed yields the properties again, cut to the width of their fields, and
      the defaults for those left out. */
  lemma FromPrint(p: FrameProperties, fields: nat)
    requires 1 <= fields <= 4
    ensures FromTokens(Tokens(Print(p, fields), 0)) == FrameProperties(
      Uint16(p.width),
      if fields > 1 then Uint16(p.height) else DEFAULTS.height,
      if fields > 2 then Uint8(p.depth) else DEFAULTS.depth,
      if fields > 3 then Uint8(p.channels) else DEFAULTS.channels)
  {
    hide Print, Tokens, FromTokens, Uint16, Uint8;
    TokensOfPrint(p, fields);
    DecimalsRead(p, fields);
  }

  lemma TokensOfPrint(p: FrameProperties, fields: nat)
    requires 1 <= fields <= 4
    ensures Tokens(Print(p, fields), 0) == Decimals(p)[..fields]
  {
    SeparableDecimals(p, fields);
    WholeAt(Print(p, fields));
    hide Decimals, Join, Tokens, Separable, At;
    TokensOfJoin(Print(p, fields), 0, Decimals(p)[..fields]);
  }

  lemma DecimalsRead(p: FrameProperties, fields: nat)
    requires 1 <= fields <= 4
    ensures FromTokens(Decimals(p)[..fields]) == FrameProperties(
      Uint16(p.width),
      if fields > 1 then Uint16(p.height) else DEFAULTS.height,
      if fields > 2 then Uint8(p.depth) else DEFAULTS.depth,
      if fields > 3 then Uint8(p.channels) else DEFAULTS.channels)
  {
    AtoiOfDecimal(p.width);
    AtoiOfDecimal(p.height);
    AtoiOfDecimal(p.depth);
    AtoiOfDecimal(p.channels);
    hide Decimal, AtoiValue, Uint16, Uint8;
  }

  lemma WholeAt(s: string)
    ensures At(s, 0, s)
  {
  }

  lemma SeparableDecimals(p: FrameProperties, fields: nat)
    requires fields <= 4
    ensures Separable(Decimals(p)[..fields])
  {
    hide Decimal;
    forall i | 0 <= i < fields ensures AllOf(Decimals(p)[i], NotComma) {
      assert AllOf(Decimals(p)[i], IsDigit);
    }
  }

  /** All properties that fit their fields come back as they were. */
  lemma RoundTrip(p: FrameProperties)
    requires p.width < 0x1_0000 && p.height < 0x1_0000 && p.depth < 0x100 && p.channels < 0x100
    ensures FromTokens(Tokens(Print(p, 4), 0)) == p
  {
    hide Print, Tokens, FromTokens;
    FromPrint(p, 4);
  }

  /** The order of the fields, and what fields left out are. */
  lemma FieldOrder(w: nat, h: nat, d: nat, c: nat)
    ensures FromTokens([Decimal(w), Decimal(h), Decimal(d), Decimal(c)])
         == FrameProperties(w % 0x1_0000, h % 0x1_0000, d % 0x100, c % 0x100)
    ensures Print(FrameProperties(w, h, d, c), 4)
         == Decimal(w) + "," + Decimal(h) + "," + Decimal(d) + "," + Decimal(c)
    ensures FromTokens([]) == FrameProperties(0, 0, 8, 3)
  {
    hide AtoiValue, Decimal;
    AtoiOfDecimal(w);
    AtoiOfDecimal(h);
    AtoiOfDecimal(d);
    AtoiOfDecimal(c);
    PrintFour(Decimal(w), Decimal(h), Decimal(d), Decimal(c));
    assert Decimals(FrameProperties(w, h, d, c))[..4] == [Decimal(w), Decimal(h), Decimal(d), Decimal(c)];
  }

  lemma PrintFour(w: string, h: string, d: string, c: string)
    ensures Join([w, h, d, c]) == w + "," + h + "," + d + "," + c
  {
    assert [w, h, d, c][1..] == [h, d, c] && [h, d, c][1..] == [d, c] && [d, c][1..] == [c];
    assert Join([d, c]) == d + "," + c;
    assert Join([h, d, c]) == h + "," + (d + "," + c);
  }
}
