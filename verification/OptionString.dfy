/** lib/optionstring.c: the parser works inside its copy of the text, writing terminators over
    what it has read; names and values are pointers into the copy. */
module OptionStrings {
  import opened Basics
  import opened OptionText
  import opened Texts

  /** The copy is as the text from a position on. */
  ghost predicate Unread(buf: array<char>, s: string, from: nat)
    reads buf
  {
    && from <= |s| && buf.Length == |s| + 1 && buf[|s|] == NUL
    && (forall k :: from <= k < |s| ==> buf[k] == s[k])
  }

  /** A terminated v stands at p, wholly in front of the limit. */
  ghost predicate Stored(buf: array<char>, p: nat, v: string, limit: nat)
    reads buf
  {
    && p + |v| < limit <= buf.Length && buf[p + |v|] == NUL
    && (forall k :: 0 <= k < |v| ==> buf[p + k] == v[k] != NUL)
  }

  /** The string a pointer points to. */
  function CString(b: seq<char>, p: nat): string
    decreases |b| - p
  {
    if p < |b| && b[p] != NUL then [b[p]] + CString(b, p + 1) else ""
  }

  lemma {:induction false} StoredIsCString(buf: array<char>, p: nat, v: string, limit: nat)
    requires Stored(buf, p, v, limit)
    ensures CString(buf[..], p) == v
    decreases |v|
  {
    if v != "" {
      forall k | 0 <= k < |v| - 1 ensures buf[p + 1 + k] == v[1..][k] {
        assert buf[p + (k + 1)] == v[k + 1];
      }
      assert buf[p + 0] == v[0];
      StoredIsCString(buf, p + 1, v[1..], limit);
      assert v == [v[0]] + v[1..];
    }
  }

  method ConsumeWhitespace(buf: array<char>, ghost s: string, offset: nat) returns (i: nat)
    requires Unread(buf, s, offset)
    ensures i == Run(s, offset, IsSpace) && Unread(buf, s, i)
  {
    i := offset;
    while IsSpace(buf[i])
      invariant i <= |s| && Unread(buf, s, i) && Run(s, offset, IsSpace) == Run(s, i, IsSpace)
      decreases |s| - i
    {
      i := i + 1;
    }
  }

  method GetIdentifier(buf: array<char>, ghost s: string, offset: nat) returns (identifier: Option<nat>, i: nat)
    requires Unread(buf, s, offset)
    ensures var start := Run(s, offset, IsSpace);
      && i == Run(s, start, IsIdentifier) && identifier == (if i == start then None else Some(start))
    ensures Unread(buf, s, i)
  {
    i := ConsumeWhitespace(buf, s, offset);
    var start := i;
    while IsIdentifier(buf[i])
      invariant start <= i <= |s| && Unread(buf, s, i) && Run(s, start, IsIdentifier) == Run(s, i, IsIdentifier)
      decreases |s| - i
    {
      i := i + 1;
    }
    identifier := if i == start then None else Some(start);
  }

  method GetValue(buf: array<char>, ghost s: string, offset: nat) returns (value: Option<nat>, i: nat)
    requires Unread(buf, s, offset)
    ensures var start := Run(s, offset, IsSpace);
      && i == Run(s, start, IsValue) && value == (if i == start then None else Some(start))
    ensures Unread(buf, s, i)
  {
    i := ConsumeWhitespace(buf, s, offset);
    var start := i;
    var end := start;
    while buf[i] != ',' && buf[i] != NUL
      invariant start <= i <= |s| && Unread(buf, s, i) && Run(s, start, IsValue) == Run(s, i, IsValue)
      invariant i == start ==> end == start
      invariant i > start && !IsSpace(buf[i]) ==> end == i
      decreases |s| - i
    {
      i := i + 1;
      if !IsSpace(buf[i]) {
        end := i;
      }
    }
    i := end;
    value := if i == start then None else Some(start);
  }

  /** Everything stored so far lies in front of the limit. */
  ghost predicate AllStored(buf: array<char>, options: map<string, nat>, values: map<string, string>, limit: nat)
    reads buf
  {
    options.Keys == values.Keys && forall k :: k in options ==> Stored(buf, options[k], values[k], limit)
  }

  /** Writing the terminator behind what has been read of a token. Nothing read before and
      nothing still to be read changes. */
  method Terminate(buf: array<char>, ghost s: string, ghost start: nat, end: nat, ghost limit: nat,
                   ghost options: map<string, nat>, ghost values: map<string, string>)
    requires NUL !in s && limit <= start <= end && Unread(buf, s, start) && end <= |s|
    requires AllStored(buf, options, values, limit)
    modifies buf
    ensures Stored(buf, start, s[start..end], end + 1) && AllStored(buf, options, values, limit)
    ensures buf[end] == NUL && (forall k :: 0 <= k < buf.Length && k != end ==> buf[k] == old(buf[k]))
    ensures forall i: nat :: end < i <= |s| ==> Unread(buf, s, i)
  {
    buf[end] := NUL;
    ghost var token := s[start..end];
    forall k | 0 <= k < |token| ensures token[k] != NUL {
      assert s[start + k] in s;
    }
  }

  /** One option of the loop of SVR_parseOptionString, up to its value: the identifier is
      terminated, the value not yet. */
  method ReadOption(buf: array<char>, ghost s: string, offset: nat,
                    ghost options: map<string, nat>, ghost values: map<string, string>) returns (r: Scan)
    requires NUL !in s && Unread(buf, s, offset) && AllStored(buf, options, values, offset)
    modifies buf
    ensures r == ScanOption(s, offset) && AllStored(buf, options, values, offset)
    ensures forall k :: 0 <= k < offset ==> buf[k] == old(buf[k])
    ensures r.Item? ==> Unread(buf, s, r.value) && Stored(buf, r.start, s[r.start..r.end], r.end + 1)
  {
    hide ScanOption, Run, Stored, AllStored, IsIdentifier, IsValue;
    ghost var start := Run(s, offset, IsSpace);
    var identifier, i := GetIdentifier(buf, s, offset);
    var end := i;
    if identifier == None {
      ScanNoIdentifier(s, offset, start);
      return if buf[i] == NUL then End else Bad(i);
    }
    i := ConsumeWhitespace(buf, s, i);
    if buf[i] != '=' {
      ScanNoEquals(s, offset, start, end, i);
      return Bad(i);
    }
    ghost var eq := i;
    i := i + 1;
    ghost var behind, from := i, Run(s, i, IsSpace);
    Terminate(buf, s, start, end, offset, options, values);
    var value;
    value, i := GetValue(buf, s, i);
    ScanValue(s, offset, start, end, eq, behind, from, i);
    if value == None {
      return Bad(i);
    }
    r := Item(identifier.value, end, value.value, i);
  }

  /** The dictionary of a parsed option string: pointers into the copy it holds, and the object
      name, which is NULL when the text gives none. */
  datatype Dictionary = Dictionary(name: Option<nat>, options: map<string, nat>, descriptor: array<char>)

  datatype Result = Failure | Success(dictionary: Dictionary)

  function NameOf(d: Dictionary): Option<string>
    reads d.descriptor
  {
    match d.name
    case None => None
    case Some(p) => Some(CString(d.descriptor[..], p))
  }

  function ValuesOf(d: Dictionary): map<string, string>
    reads d.descriptor
  {
    map k | k in d.options :: CString(d.descriptor[..], d.options[k])
  }

  ghost predicate NameStored(buf: array<char>, name: Option<nat>, text: Option<string>, limit: nat)
    reads buf
  {
    match name
    case None => text == None
    case Some(p) => text.Some? && Stored(buf, p, text.value, limit)
  }

  lemma StoredIsRead(d: Dictionary, text: Option<string>, values: map<string, string>, limit: nat)
    requires NameStored(d.descriptor, d.name, text, limit) && AllStored(d.descriptor, d.options, values, limit)
    ensures NameOf(d) == text && ValuesOf(d) == values
  {
    if d.name.Some? {
      StoredIsCString(d.descriptor, d.name.value, text.value, limit);
    }
    forall k | k in d.options ensures CString(d.descriptor[..], d.options[k]) == values[k] {
      StoredIsCString(d.descriptor, d.options[k], values[k], limit);
    }
  }

  /** Setting an option: the value ends at the terminator just written. */
  method Set(buf: array<char>, ghost s: string, options: map<string, nat>, ghost values: map<string, string>,
             r: Scan, ghost offset: nat) returns (options': map<string, nat>, ghost values': map<string, string>)
    requires r.Item? && offset <= r.start <= r.end <= r.value <= r.stop <= |s| && NUL !in s
    requires Unread(buf, s, r.value) && Stored(buf, r.start, s[r.start..r.end], r.end + 1) && r.end < r.value
    requires AllStored(buf, options, values, offset)
    modifies buf
    ensures values' == values[s[r.start..r.end] := s[r.value..r.stop]]
    ensures forall limit: nat :: r.stop < limit <= |s| + 1 ==> AllStored(buf, options', values', limit)
    ensures buf[r.stop] == NUL && (forall k :: 0 <= k < buf.Length && k != r.stop ==> buf[k] == old(buf[k]))
    ensures forall i: nat :: r.stop < i <= |s| ==> Unread(buf, s, i)
  {
    buf[r.stop] := NUL;
    StoredIsCString(buf, r.start, s[r.start..r.end], r.end + 1);
    options' := options[CString(buf[..], r.start) := r.value];
    values' := values[s[r.start..r.end] := s[r.value..r.stop]];
    ghost var value := s[r.value..r.stop];
    forall k | 0 <= k < |value| ensures value[k] != NUL {
      assert s[r.value + k] in s;
    }
  }

  datatype Progress = More | Done | Wrong

  /** One pass of the loop of SVR_parseOptionString. */
  method Pass(buf: array<char>, ghost s: string, i: nat, options: map<string, nat>, ghost values: map<string, string>,
              ghost parsed: Parsed, ghost name: Option<string>)
    returns (progress: Progress, next: nat, options': map<string, nat>, ghost values': map<string, string>)
    requires NUL !in s && Unread(buf, s, i) && AllStored(buf, options, values, i) && Remains(parsed, s, i, name, values)
    modifies buf
    ensures forall k :: 0 <= k < i ==> buf[k] == old(buf[k])
    ensures progress.More? ==>
      && i < next && Unread(buf, s, next) && AllStored(buf, options', values', next)
      && Remains(parsed, s, next, name, values')
    ensures progress.Done? ==> parsed == WithOptions(name, values') && AllStored(buf, options', values', buf.Length)
    ensures progress.Wrong? ==> parsed == Malformed(next)
  {
    hide ParseOptions, Remains, ScanOption, Run, Stored, AllStored;
    StopParses(parsed, s, i, name, values);
    options', values' := options, values;
    var r := ReadOption(buf, s, i, options, values);
    if r.End? {
      StoredEarlier(buf, options, values, i, buf.Length);
      return Done, i, options', values';
    }
    if r.Bad? {
      return Wrong, r.position, options', values';
    }
    ValueEnds(s, i);
    values' := values[s[r.start..r.end] := s[r.value..r.stop]];
    next := ConsumeWhitespace(buf, s, r.stop);
    if buf[next] == NUL {
      ItemParsesLast(parsed, s, i, r, name, values, values');
      options', values' := Set(buf, s, options, values, r, i);
      return Done, next, options', values';
    }
    if buf[next] != ',' {
      return Wrong, next, options', values';
    }
    next := ConsumeWhitespace(buf, s, next + 1);
    ItemParses(parsed, s, i, r, next, name, values, values');
    if buf[next] == NUL {
      return Wrong, next, options', values';
    }
    options', values' := Set(buf, s, options, values, r, i);
    progress := More;
  }

  /** The loop of SVR_parseOptionString. */
  method ReadOptions(buf: array<char>, ghost s: string, offset: nat, ghost name: Option<string>)
    returns (ok: bool, i: nat, options: map<string, nat>, ghost values: map<string, string>)
    requires NUL !in s && Unread(buf, s, offset)
    modifies buf
    ensures forall k :: 0 <= k < offset ==> buf[k] == old(buf[k])
    ensures var parsed := ParseOptions(s, offset, name, map[]);
      if ok then parsed == WithOptions(name, values) && AllStored(buf, options, values, buf.Length)
      else parsed == Malformed(i)
  {
    ok, i, options, values := true, offset, map[], map[];
    ghost var parsed := ParseOptions(s, offset, name, map[]);
    hide ParseOptions;
    while buf[i] != NUL
      invariant offset <= i && Unread(buf, s, i) && AllStored(buf, options, values, i)
      invariant forall k :: 0 <= k < offset ==> buf[k] == old(buf[k])
      invariant Remains(parsed, s, i, name, values)
      decreases |s| - i
    {
      var progress;
      progress, i, options, values := Pass(buf, s, i, options, values, parsed, name);
      if progress.Done? {
        return;
      }
      if progress.Wrong? {
        return false, i, options, values;
      }
    }
    NothingRemains(parsed, s, name, values);
    StoredEarlier(buf, options, values, i, buf.Length);
  }

  lemma StoredEarlier(buf: array<char>, options: map<string, nat>, values: map<string, string>, limit: nat, later: nat)
    requires AllStored(buf, options, values, limit) && limit <= later <= buf.Length
    ensures AllStored(buf, options, values, later)
  {
  }

  /** Terminating the object name. */
  method TerminateName(buf: array<char>, ghost s: string, ghost start: nat, end: nat, identifier: Option<nat>)
    requires NUL !in s && start <= end <= |s| && Unread(buf, s, start)
    requires identifier == if start == end then None else Some(start)
    modifies buf
    ensures NameStored(buf, identifier, Token(s, start, end), end + 1)
    ensures forall i: nat :: end < i <= |s| ==> Unread(buf, s, i)
  {
    Terminate(buf, s, start, end, start, map[], map[]);
  }

  /** The part of the text behind the ':', read with the object name already stored. */
  method ReadBehindName(buf: array<char>, ghost s: string, offset: nat, ghost identifier: Option<nat>,
                        ghost name: Option<string>)
    returns (ok: bool, i: nat, options: map<string, nat>, ghost values: map<string, string>)
    requires NUL !in s && Unread(buf, s, offset) && NameStored(buf, identifier, name, offset)
    modifies buf
    ensures NameStored(buf, identifier, name, buf.Length)
    ensures var parsed := ParseOptions(s, offset, name, map[]);
      if ok then parsed == WithOptions(name, values) && AllStored(buf, options, values, buf.Length)
      else parsed == Malformed(i)
  {
    hide ParseOptions, AllStored;
    ok, i, options, values := ReadOptions(buf, s, offset, name);
  }

  /** What was parsed is what the dictionary reads as. */
  ghost predicate Reflects(d: Dictionary, parsed: Parsed)
    reads d.descriptor
  {
    match parsed
    case Malformed(_) => false
    case NameOnly(name) => NameOf(d) == name && ValuesOf(d) == map[]
    case WithOptions(name, options) => NameOf(d) == name && ValuesOf(d) == options
  }

  /** The error position is left as it was when the text is only a name. */
  function ErrorPosition(parsed: Parsed, was: int): int {
    match parsed
    case Malformed(p) => p
    case NameOnly(_) => was
    case WithOptions(_, _) => -1
  }

  /** svr_parse_error_position. */
  class ErrorReport {
    var position: int

    constructor ()
      ensures position == -1
    {
      position := -1;
    }
  }

  /** SVR_parseOptionString behind the object name, which ends at `end`; i is the first
      character that is not white space. */
  method ParseBehindName(buf: array<char>, ghost s: string, ghost start: nat, end: nat, i: nat, identifier: Option<nat>,
                         report: ErrorReport, ghost parsed: Parsed) returns (r: Result)
    requires NUL !in s && Unread(buf, s, start) && Branches(parsed, s, start, end, i)
    requires identifier == if start == end then None else Some(start)
    modifies report, buf
    ensures if r.Failure? then parsed.Malformed? else Reflects(r.dictionary, parsed)
    ensures report.position == ErrorPosition(parsed, old(report.position))
    ensures r.Success? ==> r.dictionary.descriptor == buf
  {
    assert i < |s| ==> s[i] in s;
    hide Token, Remains, Reflects, ErrorPosition;
    if buf[i] == NUL {
      r := ReturnName(buf, s, start, end, identifier, report, parsed);
    } else if buf[i] != ':' {
      r := ReturnFailure(i, report, parsed);
    } else {
      r := ReadBehindColon(buf, s, start, end, i, identifier, report, parsed);
    }
  }

  method ReturnName(buf: array<char>, ghost s: string, ghost start: nat, end: nat, identifier: Option<nat>,
                    report: ErrorReport, ghost parsed: Parsed) returns (r: Result)
    requires NUL !in s && start <= end <= |s| && Unread(buf, s, start)
    requires parsed.NameOnly? && parsed.name == Token(s, start, end)
    requires identifier == if start == end then None else Some(start)
    modifies buf
    ensures if r.Failure? then parsed.Malformed? else Reflects(r.dictionary, parsed)
    ensures report.position == ErrorPosition(parsed, old(report.position))
    ensures r.Success? && r.dictionary.descriptor == buf
  {
    TerminateName(buf, s, start, end, identifier);
    r := Success(Dictionary(identifier, map[], buf));
    StoredIsRead(r.dictionary, Token(s, start, end), map[], end + 1);
  }

  method ReturnFailure(position: nat, report: ErrorReport, ghost parsed: Parsed) returns (r: Result)
    requires parsed.Malformed? && parsed.position == position
    modifies report
    ensures if r.Failure? then parsed.Malformed? else Reflects(r.dictionary, parsed)
    ensures report.position == ErrorPosition(parsed, old(report.position))
    ensures r.Failure?
  {
    report.position := position;
    r := Failure;
  }

  method ReadBehindColon(buf: array<char>, ghost s: string, ghost start: nat, end: nat, colon: nat,
                         identifier: Option<nat>, report: ErrorReport, ghost parsed: Parsed) returns (r: Result)
    requires NUL !in s && start <= end <= colon < |s| && Unread(buf, s, start)
    requires identifier == if start == end then None else Some(start)
    requires Remains(parsed, s, colon + 1, Token(s, start, end), map[])
    modifies report, buf
    ensures if r.Failure? then parsed.Malformed? else Reflects(r.dictionary, parsed)
    ensures report.position == ErrorPosition(parsed, old(report.position))
    ensures r.Success? ==> r.dictionary.descriptor == buf
  {
    hide Run, ParseOptions, NameStored, AllStored;
    ghost var name := Token(s, start, end);
    TerminateName(buf, s, start, end, identifier);
    NameStoredEarlier(buf, identifier, name, end + 1, colon + 1);
    var ok, at, options;
    ghost var values;
    ok, at, options, values := ReadBehindName(buf, s, colon + 1, identifier, name);
    if !ok {
      r := ReturnFailure(at, report, parsed);
      return;
    }
    r := Success(Dictionary(identifier, options, buf));
    report.position := -1;
    StoredIsRead(r.dictionary, name, values, buf.Length);
  }

  /** SVR_parseOptionString. */
  method ParseOptionString(s: string, report: ErrorReport) returns (r: Result)
    requires NUL !in s
    modifies report
    ensures if r.Failure? then ParseText(s).Malformed? else Reflects(r.dictionary, ParseText(s))
    ensures report.position == ErrorPosition(ParseText(s), old(report.position))
    ensures r.Success? ==> fresh(r.dictionary.descriptor)
  {
    var descriptor := new char[|s| + 1](i requires 0 <= i <= |s| => if i < |s| then s[i] else NUL);
    ghost var start := Run(s, 0, IsSpace);
    hide Run, ParseText, Branches;
    var identifier, end := GetIdentifier(descriptor, s, 0);
    var i := ConsumeWhitespace(descriptor, s, end);
    TextBranches(s, start, end, i);
    r := ParseBehindName(descriptor, s, start, end, i, identifier, report, ParseText(s));
  }

  lemma NameStoredEarlier(buf: array<char>, name: Option<nat>, text: Option<string>, limit: nat, later: nat)
    requires NameStored(buf, name, text, limit) && limit <= later <= buf.Length
    ensures NameStored(buf, name, text, later)
  {
  }
}
