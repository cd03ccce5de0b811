/** lib/optionstring.c, on values: the grammar of option strings, and what one means. */
module OptionText {
  import opened Basics
  import opened Texts

  predicate IsIdentifier(c: char) {
    'a' <= c <= 'z' || 'A' <= c <= 'Z' || '0' <= c <= '9' || c == '_'
  }

  predicate IsValue(c: char) {
    c != ',' && c != NUL
  }

  /** What parsing a string yields: its object name, with or without options, or an error. */
  datatype Parsed =
    | NameOnly(name: Option<string>)
    | WithOptions(name: Option<string>, options: map<string, string>)
    | Malformed(position: nat)

  function Token(s: string, i: nat, j: nat): Option<string>
    requires i <= j <= |s|
  {
    if i == j then None else Some(s[i..j])
  }

  function ParseText(s: string): Parsed {
    var start := Run(s, 0, IsSpace);
    var end := Run(s, start, IsIdentifier);
    var p := Run(s, end, IsSpace);
    var name := Token(s, start, end);
    if p == |s| then NameOnly(name)
    else if s[p] != ':' then Malformed(p)
    else ParseOptions(s, p + 1, name, map[])
  }

  /** One option: where its key and its value are, or where it goes wrong. */
  datatype Scan = End | Bad(position: nat) | Item(start: nat, end: nat, value: nat, stop: nat)

  function ScanOption(s: string, i: nat): (r: Scan)
    requires i <= |s|
    ensures r.Item? ==> i <= r.start < r.end < r.value < r.stop <= |s| && (r.stop < |s| ==> !IsValue(s[r.stop]))
  {
    var start := Run(s, i, IsSpace);
    var end := Run(s, start, IsIdentifier);
    if start == |s| then End
    else if start == end then Bad(start)
    else
      var eq := Run(s, end, IsSpace);
      if eq == |s| || s[eq] != '=' then Bad(eq)
      else
        var value := Run(s, eq + 1, IsSpace);
        var stop := Run(s, value, IsValue);
        if value == stop then Bad(stop) else Item(start, end, value, stop)
  }

  function ParseOptions(s: string, i: nat, name: Option<string>, options: map<string, string>): (r: Parsed)
    requires i <= |s|
    ensures !r.NameOnly? && (r.WithOptions? ==> r.name == name)
    decreases |s| - i
  {
    match ScanOption(s, i)
    case End => WithOptions(name, options)
    case Bad(p) => Malformed(p)
    case Item(start, end, value, stop) =>
      var options' := options[s[start..end] := s[value..stop]];
      if stop == |s| || s[stop] != ',' then WithOptions(name, options')
      else
        var next := Run(s, stop + 1, IsSpace);
        if next == |s| then Malformed(next) else ParseOptions(s, next, name, options')
  }

  /** What the text is, once its object name is known to go from start to end and the first
      character behind it that is not white space to be at p. */
  ghost predicate Branches(parsed: Parsed, s: string, start: nat, end: nat, p: nat) {
    && start <= end <= p <= |s|
    && (if p == |s| then parsed.NameOnly? && parsed.name == Token(s, start, end)
        else if s[p] != ':' then parsed.Malformed? && parsed.position == p
        else Remains(parsed, s, p + 1, Token(s, start, end), map[]))
  }

  lemma TextBranches(s: string, start: nat, end: nat, p: nat)
    requires start == Run(s, 0, IsSpace) && end == Run(s, start, IsIdentifier) && p == Run(s, end, IsSpace)
    ensures Branches(ParseText(s), s, start, end, p)
  {
    hide Run, ParseOptions;
  }

  /** The branches of ScanOption, one by one. */
  lemma ScanNoIdentifier(s: string, i: nat, start: nat)
    requires i <= |s| && start == Run(s, i, IsSpace) && start == Run(s, start, IsIdentifier)
    ensures ScanOption(s, i) == if start == |s| then End else Bad(start)
  {
    hide Run;
  }

  lemma ScanNoEquals(s: string, i: nat, start: nat, end: nat, eq: nat)
    requires i <= |s| && start == Run(s, i, IsSpace) && end == Run(s, start, IsIdentifier) && eq == Run(s, end, IsSpace)
    requires start != end && (eq == |s| || s[eq] != '=')
    ensures ScanOption(s, i) == Bad(eq)
  {
    hide Run;
  }

  lemma ScanValue(s: string, i: nat, start: nat, end: nat, eq: nat, behind: nat, value: nat, stop: nat)
    requires i <= |s| && start == Run(s, i, IsSpace) && end == Run(s, start, IsIdentifier) && eq == Run(s, end, IsSpace)
    requires start != end && eq < |s| && s[eq] == '=' && behind == eq + 1
    requires value == Run(s, behind, IsSpace) && stop == Run(s, value, IsValue)
    ensures ScanOption(s, i) == if value == stop then Bad(stop) else Item(start, end, value, stop)
  {
    hide Run;
  }

  /** Parsing the options from i on, with those before it known, yields the whole. */
  ghost predicate Remains(parsed: Parsed, s: string, i: nat, name: Option<string>, options: map<string, string>) {
    i <= |s| && parsed == ParseOptions(s, i, name, options)
  }

  lemma NothingRemains(parsed: Parsed, s: string, name: Option<string>, options: map<string, string>)
    requires Remains(parsed, s, |s|, name, options)
    ensures parsed == WithOptions(name, options)
  {
  }

  lemma StopParses(parsed: Parsed, s: string, i: nat, name: Option<string>, options: map<string, string>)
    requires Remains(parsed, s, i, name, options)
    ensures ScanOption(s, i).End? ==> parsed == WithOptions(name, options)
    ensures ScanOption(s, i).Bad? ==> parsed == Malformed(ScanOption(s, i).position)
  {
    hide ScanOption;
  }

  /** A value ends at a comma or at the end. */
  lemma ValueEnds(s: string, i: nat)
    requires i <= |s| && NUL !in s && ScanOption(s, i).Item?
    ensures var stop := ScanOption(s, i).stop; Run(s, stop, IsSpace) == stop && (stop < |s| ==> s[stop] == ',')
  {
    var stop := ScanOption(s, i).stop;
    hide ScanOption;
    assert stop < |s| ==> s[stop] in s;
  }

  lemma ItemParsesLast(parsed: Parsed, s: string, i: nat, r: Scan, name: Option<string>,
                       options: map<string, string>, options': map<string, string>)
    requires Remains(parsed, s, i, name, options) && ScanOption(s, i) == r && r.Item? && r.stop == |s|
    requires options' == options[s[r.start..r.end] := s[r.value..r.stop]]
    ensures parsed == WithOptions(name, options')
  {
    hide ScanOption, Run;
  }

  lemma ItemParses(parsed: Parsed, s: string, i: nat, r: Scan, next: nat, name: Option<string>,
                   options: map<string, string>, options': map<string, string>)
    requires Remains(parsed, s, i, name, options) && ScanOption(s, i) == r && r.Item?
    requires r.stop < |s| && s[r.stop] == ',' && next == Run(s, r.stop + 1, IsSpace)
    requires options' == options[s[r.start..r.end] := s[r.value..r.stop]]
    ensures next == |s| ==> parsed.Malformed? && parsed.position == next
    ensures next < |s| ==> Remains(parsed, s, next, name, options')
  {
    hide ScanOption, Run;
  }

  /** One option as written, with the white space allowed around its parts. White space behind
      the value is part of the value. */
  datatype Entry = Entry(before: string, key: string, mid: string, after: string, value: string)

  predicate WellFormed(e: Entry) {
    && AllOf(e.before, IsSpace) && AllOf(e.mid, IsSpace) && AllOf(e.after, IsSpace)
    && e.key != "" && AllOf(e.key, IsIdentifier)
    && e.value != "" && AllOf(e.value, IsValue) && !IsSpace(e.value[0])
  }

  function PrintEntry(e: Entry): string {
    e.before + (e.key + (e.mid + ("=" + (e.after + e.value))))
  }

  function PrintEntries(es: seq<Entry>): string {
    if es == [] then ""
    else if |es| == 1 then PrintEntry(es[0])
    else PrintEntry(es[0]) + ("," + PrintEntries(es[1..]))
  }

  /** The options of a list of entries: a later entry replaces an earlier one. */
  function OptionsOf(es: seq<Entry>, options: map<string, string>): map<string, string> {
    if es == [] then options else OptionsOf(es[1..], options[es[0].key := es[0].value])
  }

  /** The last entry with a key wins. */
  lemma {:induction false} LastEntryWins(es: seq<Entry>, options: map<string, string>, k: string)
    ensures var m := OptionsOf(es, options);
      if exists i :: 0 <= i < |es| && es[i].key == k
      then exists i :: 0 <= i < |es| && es[i].key == k && (forall j :: i < j < |es| ==> es[j].key != k)
             && k in m && m[k] == es[i].value
      else (k in m <==> k in options) && (k in m ==> m[k] == options[k])
  {
    if es != [] {
      var rest, options' := es[1..], options[es[0].key := es[0].value];
      LastEntryWins(rest, options', k);
      if i :| 0 <= i < |rest| && rest[i].key == k && (forall j :: i < j < |rest| ==> rest[j].key != k) {
        assert es[i + 1].key == k;
        assert forall j :: i + 1 < j < |es| ==> es[j] == rest[j - 1];
      } else {
        assert forall j :: 0 < j < |es| ==> es[j] == rest[j - 1];
      }
    }
  }

  /** An option string as written. A missing object name is allowed; the code stores NULL for it. */
  datatype Document =
    Document(before: string, name: string, mid: string, colon: bool, entries: seq<Entry>, tail: string)

  ghost predicate WellFormedDocument(d: Document) {
    && AllOf(d.before, IsSpace) && AllOf(d.name, IsIdentifier) && AllOf(d.mid, IsSpace) && AllOf(d.tail, IsSpace)
    && (d.name == "" ==> d.mid == "")
    && (!d.colon ==> d.entries == []) && (d.entries != [] || !d.colon ==> d.tail == "")
    && AllWellFormed(d.entries)
  }

  function PrintOptions(d: Document): string {
    PrintEntries(d.entries) + d.tail
  }

  function PrintDocument(d: Document): string {
    d.before + (d.name + (d.mid + (if d.colon then ":" + PrintOptions(d) else "")))
  }

  function Given(name: string): Option<string> {
    if name == "" then None else Some(name)
  }

  function Meaning(d: Document): Parsed {
    if d.colon then WithOptions(Given(d.name), OptionsOf(d.entries, map[])) else NameOnly(Given(d.name))
  }

  /** What one printed entry scans as. */
  function ItemOf(i: nat, e: Entry): (it: Scan)
    ensures it.Item? && it.start <= it.end && it.value <= it.stop
  {
    var start := i + |e.before|;
    var end := start + |e.key|;
    var value := end + |e.mid| + 1 + |e.after|;
    Item(start, end, value, value + |e.value|)
  }

  lemma EntryScans(s: string, i: nat, e: Entry)
    requires WellFormed(e) && At(s, i, PrintEntry(e))
    requires var stop := i + |PrintEntry(e)|; stop < |s| ==> s[stop] == ','
    ensures ScanOption(s, i) == ItemOf(i, e) && ItemOf(i, e).stop == i + |PrintEntry(e)|
    ensures var it := ItemOf(i, e); s[it.start..it.end] == e.key && s[it.value..it.stop] == e.value
  {
    hide At, ScanOption, Run, PrintEntry, AllOf;
    var start, end, eq, value := PartsAt(s, i, e);
    FirstAt(s, eq, "=");
    WordScans(s, i, start, end, eq, e.before, e.key, e.mid);
    ValueScans(s, eq + 1, value, e);
    PartsScan(s, i, start, end, eq, value, value + |e.value|);
  }

  lemma WordAt(s: string, i: nat, a: string, b: string, c: string, d: string) returns (j: nat, k: nat, l: nat)
    requires At(s, i, a + (b + (c + d)))
    ensures j == i + |a| && k == j + |b| && l == k + |c|
    ensures At(s, i, a) && At(s, j, b) && At(s, k, c) && At(s, l, d)
  {
    j, k, l := i + |a|, i + |a| + |b|, i + |a| + |b| + |c|;
    hide At;
    AtSplit(s, i, a, b + (c + d));
    AtSplit(s, j, b, c + d);
    AtSplit(s, k, c, d);
  }

  lemma PartsAt(s: string, i: nat, e: Entry) returns (start: nat, end: nat, eq: nat, value: nat)
    requires At(s, i, PrintEntry(e))
    ensures start == i + |e.before| && end == start + |e.key| && eq == end + |e.mid| && value == eq + 1 + |e.after|
    ensures At(s, i, e.before) && At(s, start, e.key) && At(s, end, e.mid)
    ensures At(s, eq, "=") && At(s, eq + 1, e.after) && At(s, value, e.value)
    ensures i + |PrintEntry(e)| == value + |e.value|
  {
    hide At;
    start, end, eq := WordAt(s, i, e.before, e.key, e.mid, "=" + (e.after + e.value));
    AtSplit(s, eq, "=", e.after + e.value);
    AtSplit(s, eq + 1, e.after, e.value);
    value := eq + 1 + |e.after|;
  }

  /** Where the scans of an identifier and the white space around it end. */
  lemma WordScans(s: string, i: nat, start: nat, end: nat, p: nat, before: string, word: string, mid: string)
    requires AllOf(before, IsSpace) && AllOf(word, IsIdentifier) && AllOf(mid, IsSpace) && (word == "" ==> mid == "")
    requires start == i + |before| && end == start + |word| && p == end + |mid|
    requires At(s, i, before) && At(s, start, word) && At(s, end, mid)
    requires p < |s| ==> !IsSpace(s[p]) && !IsIdentifier(s[p])
    ensures p <= |s| && Run(s, i, IsSpace) == start && Run(s, start, IsIdentifier) == end && Run(s, end, IsSpace) == p
    ensures s[start..end] == word
  {
    hide Run;
    AtIsSlice(s, start, word);
    AtIsSlice(s, end, mid);
    if word != "" { FirstAt(s, start, word); }
    if mid != "" { FirstAt(s, end, mid); }
    hide At;
    RunOver(s, i, before, IsSpace);
    RunOver(s, start, word, IsIdentifier);
    RunOver(s, end, mid, IsSpace);
  }

  lemma ValueScans(s: string, i: nat, value: nat, e: Entry)
    requires WellFormed(e) && value == i + |e.after|
    requires At(s, i, e.after) && At(s, value, e.value)
    requires value + |e.value| < |s| ==> s[value + |e.value|] == ','
    ensures Run(s, i, IsSpace) == value && value < Run(s, value, IsValue) == value + |e.value| <= |s|
    ensures s[value..value + |e.value|] == e.value
  {
    FirstAt(s, value, e.value);
    hide At, Run;
    RunOver(s, i, e.after, IsSpace);
    RunOver(s, value, e.value, IsValue);
  }

  lemma PartsScan(s: string, i: nat, start: nat, end: nat, eq: nat, value: nat, stop: nat)
    requires i <= start < end <= eq < value < stop <= |s| && s[eq] == '='
    requires Run(s, i, IsSpace) == start && Run(s, start, IsIdentifier) == end && Run(s, end, IsSpace) == eq
    requires Run(s, eq + 1, IsSpace) == value && Run(s, value, IsValue) == stop
    ensures ScanOption(s, i) == Item(start, end, value, stop)
  {
    hide Run;
  }

  ghost predicate AllWellFormed(es: seq<Entry>) {
    forall e :: e in es ==> WellFormed(e)
  }

  function Bare(es: seq<Entry>): (bare: seq<Entry>)
    requires es != []
    ensures |bare| == |es|
  {
    es[0 := es[0].(before := "")]
  }

  /** Parsing printed entries yields their options. */
  lemma {:induction false} EntriesParse(s: string, i: nat, es: seq<Entry>, name: Option<string>,
                                        options: map<string, string>)
    requires es != [] && AllWellFormed(es)
    requires At(s, i, PrintEntries(es)) && i + |PrintEntries(es)| == |s|
    ensures ParseOptions(s, i, name, options) == WithOptions(name, OptionsOf(es, options))
    decreases |es|
  {
    hide *;
    if |es| == 1 {
      OneEntryParses(s, i, es, name, options);
    } else {
      var stop, behind := FirstOfEntries(s, i, es);
      var e, rest, options' := es[0], es[1..], options[es[0].key := es[0].value];
      assert |rest| < |es|;
      EntryScans(s, i, e);
      var next := SkipBefore(s, behind, rest);
      NextParses(s, i, stop, behind, next, name, options, e);
      var bare := Bare(rest);
      EntriesParse(s, next, bare, name, options');
      OptionsIgnoreSpace(rest, options');
      OptionsOfFirst(es, options);
    }
  }

  lemma OneEntryParses(s: string, i: nat, es: seq<Entry>, name: Option<string>, options: map<string, string>)
    requires |es| == 1 && AllWellFormed(es)
    requires At(s, i, PrintEntries(es)) && i + |PrintEntries(es)| == |s|
    ensures ParseOptions(s, i, name, options) == WithOptions(name, OptionsOf(es, options))
  {
    assert WellFormed(es[0]) && OptionsOf(es, options) == options[es[0].key := es[0].value];
    hide At, ScanOption, ItemOf, Run, WellFormed, PrintEntry, ParseOptions, OptionsOf;
    EntryScans(s, i, es[0]);
    LastParses(s, i, name, options, es[0]);
  }

  lemma OptionsOfFirst(es: seq<Entry>, options: map<string, string>)
    requires es != []
    ensures OptionsOf(es, options) == OptionsOf(es[1..], options[es[0].key := es[0].value])
  {
  }

  lemma FirstOfEntries(s: string, i: nat, es: seq<Entry>) returns (stop: nat, behind: nat)
    requires |es| > 1 && AllWellFormed(es) && At(s, i, PrintEntries(es))
    ensures WellFormed(es[0]) && AllWellFormed(es[1..]) && At(s, i, PrintEntry(es[0]))
    ensures stop == i + |PrintEntry(es[0])| && stop < |s| && s[stop] == ',' && behind == stop + 1
    ensures At(s, behind, PrintEntries(es[1..])) && behind + |PrintEntries(es[1..])| == i + |PrintEntries(es)|
  {
    stop := i + |PrintEntry(es[0])|;
    behind := stop + 1;
    hide At, PrintEntry;
    AtSplit(s, i, PrintEntry(es[0]), "," + PrintEntries(es[1..]));
    AtSplit(s, stop, ",", PrintEntries(es[1..]));
    FirstAt(s, stop, ",");
  }

  lemma LastParses(s: string, i: nat, name: Option<string>, options: map<string, string>, e: Entry)
    requires i <= |s| && ScanOption(s, i) == ItemOf(i, e) && ItemOf(i, e).stop == |s|
    requires var it := ItemOf(i, e); s[it.start..it.end] == e.key && s[it.value..it.stop] == e.value
    ensures ParseOptions(s, i, name, options) == WithOptions(name, options[e.key := e.value])
  {
    hide ScanOption, Run;
  }

  lemma NextParses(s: string, i: nat, stop: nat, behind: nat, next: nat, name: Option<string>,
                   options: map<string, string>, e: Entry)
    requires i <= |s| && ScanOption(s, i) == ItemOf(i, e) && ItemOf(i, e).stop == stop < |s| && s[stop] == ','
    requires var it := ItemOf(i, e); s[it.start..it.end] == e.key && s[it.value..it.stop] == e.value
    requires behind == stop + 1 && Run(s, behind, IsSpace) == next < |s|
    ensures ParseOptions(s, i, name, options) == ParseOptions(s, next, name, options[e.key := e.value])
  {
    hide ScanOption, Run;
  }

  /** The white space before the first entry is skipped. */
  lemma SkipBefore(s: string, i: nat, es: seq<Entry>) returns (k: nat)
    requires es != [] && AllWellFormed(es) && At(s, i, PrintEntries(es))
    ensures Run(s, i, IsSpace) == k < |s| && At(s, k, PrintEntries(Bare(es)))
    ensures AllWellFormed(Bare(es)) && k + |PrintEntries(Bare(es))| == i + |PrintEntries(es)|
  {
    k := i + |es[0].before|;
    assert WellFormed(es[0]);
    BeforeFirst(es);
    AtSplit(s, i, es[0].before, PrintEntries(Bare(es)));
    KeyFirst(Bare(es));
    FirstAt(s, k, PrintEntries(Bare(es)));
    hide At, PrintEntries;
    RunOver(s, i, es[0].before, IsSpace);
  }

  /** White space before the first entry can be split off. */
  lemma BeforeFirst(es: seq<Entry>)
    requires es != []
    ensures PrintEntries(es) == es[0].before + PrintEntries(Bare(es))
  {
    var e, bare := es[0], Bare(es);
    BeforeEntry(e);
    assert es[1..] == bare[1..];
    if |es| > 1 {
      var more := "," + PrintEntries(es[1..]);
      assert PrintEntries(es) == PrintEntry(e) + more;
      assert PrintEntries(bare) == PrintEntry(bare[0]) + more;
      hide PrintEntry, PrintEntries;
      Associative(e.before, PrintEntry(bare[0]), more);
    }
  }

  lemma BeforeEntry(e: Entry)
    ensures PrintEntry(e) == e.before + PrintEntry(e.(before := ""))
  {
    var rest := e.key + (e.mid + ("=" + (e.after + e.value)));
    assert "" + rest == rest;
  }

  lemma Associative(a: string, b: string, c: string)
    ensures (a + b) + c == a + (b + c)
  {
  }

  lemma KeyFirst(es: seq<Entry>)
    requires es != [] && es[0].before == "" && es[0].key != ""
    ensures |PrintEntries(es)| > 0 && PrintEntries(es)[0] == es[0].key[0]
  {
  }

  lemma OptionsIgnoreSpace(es: seq<Entry>, options: map<string, string>)
    requires es != []
    ensures OptionsOf(Bare(es), options) == OptionsOf(es, options)
  {
    assert Bare(es)[1..] == es[1..];
  }

  /** Where the parts of a printed document stand. */
  lemma DocumentAt(d: Document, s: string) returns (start: nat, end: nat, p: nat)
    requires s == PrintDocument(d)
    ensures start == |d.before| && end == start + |d.name| && p == end + |d.mid|
    ensures At(s, 0, d.before) && At(s, start, d.name) && At(s, end, d.mid) && (d.colon <==> p < |s|) && p <= |s|
    ensures d.colon ==> s[p] == ':' && At(s, p + 1, PrintOptions(d)) && p + 1 + |PrintOptions(d)| == |s|
  {
    var rest := if d.colon then ":" + PrintOptions(d) else "";
    assert At(s, 0, d.before + (d.name + (d.mid + rest)));
    DocumentLength(d);
    hide At, PrintDocument, PrintOptions;
    start, end, p := WordAt(s, 0, d.before, d.name, d.mid, rest);
    if d.colon {
      ColonAt(s, p, PrintOptions(d));
    }
  }

  lemma ColonAt(s: string, p: nat, options: string)
    requires At(s, p, ":" + options)
    ensures p < |s| && s[p] == ':' && At(s, p + 1, options)
  {
    AtSplit(s, p, ":", options);
    FirstAt(s, p, ":");
  }

  lemma DocumentScans(d: Document, s: string) returns (start: nat, end: nat, p: nat)
    requires WellFormedDocument(d) && s == PrintDocument(d)
    ensures start <= end <= p <= |s| && end == start + |d.name| && At(s, start, d.name) && (d.colon <==> p < |s|)
    ensures Run(s, 0, IsSpace) == start && Run(s, start, IsIdentifier) == end && Run(s, end, IsSpace) == p
    ensures d.colon ==> s[p] == ':' && At(s, p + 1, PrintOptions(d)) && p + 1 + |PrintOptions(d)| == |s|
  {
    start, end, p := DocumentAt(d, s);
    hide At, Run, AllOf, AllWellFormed, PrintOptions, PrintDocument;
    WordScans(s, 0, start, end, p, d.before, d.name, d.mid);
  }

  lemma DocumentLength(d: Document)
    ensures |PrintDocument(d)| == |d.before| + |d.name| + |d.mid| + (if d.colon then 1 + |PrintOptions(d)| else 0)
  {
  }

  lemma NameParses(s: string, start: nat, end: nat, p: nat, name: string)
    requires end == start + |name| && start <= end <= p <= |s| && At(s, start, name)
    requires Run(s, 0, IsSpace) == start && Run(s, start, IsIdentifier) == end && Run(s, end, IsSpace) == p
    ensures p == |s| ==> ParseText(s) == NameOnly(Given(name))
    ensures p < |s| && s[p] == ':' ==> ParseText(s) == ParseOptions(s, p + 1, Given(name), map[])
  {
    hide Run, ParseOptions;
  }

  lemma HeadParses(d: Document) returns (i: nat)
    requires WellFormedDocument(d)
    ensures !d.colon ==> ParseText(PrintDocument(d)) == NameOnly(Given(d.name))
    ensures d.colon ==> At(PrintDocument(d), i, PrintOptions(d)) && i + |PrintOptions(d)| == |PrintDocument(d)|
    ensures d.colon ==> ParseText(PrintDocument(d)) == ParseOptions(PrintDocument(d), i, Given(d.name), map[])
  {
    var s := PrintDocument(d);
    hide At, Run, WellFormedDocument, PrintOptions, PrintDocument, ParseOptions, ParseText, Given;
    var start, end, p := DocumentScans(d, s);
    NameParses(s, start, end, p, d.name);
    i := p + 1;
  }

  /** Parsing inverts printing. */
  lemma DocumentParses(d: Document)
    requires WellFormedDocument(d)
    ensures ParseText(PrintDocument(d)) == Meaning(d)
  {
    hide At, Run, WellFormedDocument, PrintOptions, PrintDocument, ParseOptions, ParseText, OptionsOf, Given;
    var i := HeadParses(d);
    if d.colon {
      OptionsParse(PrintDocument(d), i, d, Given(d.name));
    }
  }

  lemma OptionsParse(s: string, i: nat, d: Document, name: Option<string>)
    requires WellFormedDocument(d) && d.colon
    requires At(s, i, PrintOptions(d)) && i + |PrintOptions(d)| == |s|
    ensures ParseOptions(s, i, name, map[]) == WithOptions(name, OptionsOf(d.entries, map[]))
  {
    hide At, Run, AllWellFormed, ParseOptions, OptionsOf;
    if d.entries == [] {
      NoEntriesParse(s, i, d.tail, name);
    } else {
      assert PrintEntries(d.entries) + d.tail == PrintEntries(d.entries);
      EntriesParse(s, i, d.entries, name, map[]);
    }
  }

  lemma NoEntriesParse(s: string, i: nat, tail: string, name: Option<string>)
    requires AllOf(tail, IsSpace) && At(s, i, PrintEntries([]) + tail) && i + |PrintEntries([]) + tail| == |s|
    ensures ParseOptions(s, i, name, map[]) == WithOptions(name, OptionsOf([], map[]))
  {
    assert PrintEntries([]) + tail == tail;
    RunOver(s, i, tail, IsSpace);
  }

  /** What the parser accepts behind the object name is printed entries. */
  lemma {:induction false} EntriesExist(s: string, i: nat, name: Option<string>, options: map<string, string>)
    returns (es: seq<Entry>, tail: string)
    requires i <= |s| && NUL !in s && !ParseOptions(s, i, name, options).Malformed?
    ensures AllWellFormed(es) && AllOf(tail, IsSpace) && (es != [] ==> tail == "")
    ensures s[i..] == PrintEntries(es) + tail
    ensures i < |s| && !IsSpace(s[i]) ==> es != [] && es[0].before == ""
    decreases |s| - i
  {
    if ScanOption(s, i) == End {
      es, tail := [], s[i..];
    } else {
      var e, stop, next, options' := ParsedOption(s, i, name, options);
      hide ParseOptions, ScanOption, Run, IsSpace;
      if stop == |s| {
        es, tail := [e], "";
      } else {
        var more, none := EntriesExist(s, next, name, options');
        assert none == "" && s[next..] == PrintEntries(more);
        var rest := more[0 := more[0].(before := s[stop + 1..next])];
        es, tail := [e] + rest, "";
        EntriesJoin(s, i, stop, next, e, more, rest);
      }
    }
  }

  /** The entry an accepted option was scanned from, and where parsing goes on. */
  lemma ParsedOption(s: string, i: nat, name: Option<string>, options: map<string, string>)
    returns (e: Entry, stop: nat, next: nat, options': map<string, string>)
    requires i <= |s| && NUL !in s && !ParseOptions(s, i, name, options).Malformed? && ScanOption(s, i) != End
    ensures WellFormed(e) && i < stop <= |s| && PrintEntry(e) == s[i..stop] && (!IsSpace(s[i]) ==> e.before == "")
    ensures stop < |s| ==>
      && s[stop] == ',' && stop < next < |s| && AllOf(s[stop + 1..next], IsSpace) && !IsSpace(s[next])
      && !ParseOptions(s, next, name, options').Malformed?
  {
    assert ScanOption(s, i).Item?;
    hide ParseOptions, ScanOption, PrintEntry, WellFormed, AllOf, Run;
    e, stop := ScannedEntry(s, i);
    next, options' := ParsesOn(s, i, name, options);
  }

  lemma ParsesOn(s: string, i: nat, name: Option<string>, options: map<string, string>)
    returns (next: nat, options': map<string, string>)
    requires i <= |s| && NUL !in s && !ParseOptions(s, i, name, options).Malformed? && ScanOption(s, i).Item?
    ensures var stop := ScanOption(s, i).stop; stop < |s| ==>
      && s[stop] == ',' && stop < next < |s| && AllOf(s[stop + 1..next], IsSpace) && !IsSpace(s[next])
      && !ParseOptions(s, next, name, options').Malformed?
  {
    var it := ScanOption(s, i);
    hide ScanOption, Run, AllOf, ParseOptions;
    options' := options[s[it.start..it.end] := s[it.value..it.stop]];
    next := it.stop;
    if it.stop < |s| {
      assert s[it.stop] in s;
      next := Run(s, it.stop + 1, IsSpace);
      RunIsAllOf(s, it.stop + 1, IsSpace);
      ParsesRest(s, i, it, next, name, options);
    }
  }

  lemma ParsesRest(s: string, i: nat, it: Scan, next: nat, name: Option<string>, options: map<string, string>)
    requires i <= |s| && !ParseOptions(s, i, name, options).Malformed? && ScanOption(s, i) == it && it.Item?
    requires it.stop < |s| && s[it.stop] == ',' && next == Run(s, it.stop + 1, IsSpace)
    ensures next < |s| && !ParseOptions(s, next, name, options[s[it.start..it.end] := s[it.value..it.stop]]).Malformed?
  {
    hide ScanOption, Run;
  }

  /** The scans behind a scanned option. */
  lemma ItemRuns(s: string, i: nat)
    requires i <= |s| && ScanOption(s, i).Item?
    ensures var it := ScanOption(s, i); var eq := Run(s, it.end, IsSpace);
      && it.start == Run(s, i, IsSpace) && it.end == Run(s, it.start, IsIdentifier) && eq < |s| && s[eq] == '='
      && it.value == Run(s, eq + 1, IsSpace) && it.stop == Run(s, it.value, IsValue)
  {
    hide Run;
  }

  lemma ScannedEntry(s: string, i: nat) returns (e: Entry, stop: nat)
    requires i <= |s| && ScanOption(s, i).Item?
    ensures stop == ScanOption(s, i).stop && i < stop <= |s| && PrintEntry(e) == s[i..stop]
    ensures WellFormed(e) && (!IsSpace(s[i]) ==> e.before == "")
  {
    hide ScanOption, Run, AllOf, PrintEntry;
    var it := ScanOption(s, i);
    var eq := Run(s, it.end, IsSpace);
    stop := it.stop;
    ItemRuns(s, i);
    e := Entry(s[i..it.start], s[it.start..it.end], s[it.end..eq], s[eq + 1..it.value], s[it.value..it.stop]);
    RunIsAllOf(s, i, IsSpace);
    RunIsAllOf(s, it.start, IsIdentifier);
    RunIsAllOf(s, it.end, IsSpace);
    RunIsAllOf(s, eq + 1, IsSpace);
    RunIsAllOf(s, it.value, IsValue);
    SlicesPrint(s, i, it.start, it.end, eq, it.value, it.stop);
  }

  lemma SlicesPrint(s: string, i: nat, start: nat, end: nat, eq: nat, value: nat, stop: nat)
    requires i <= start <= end <= eq < value <= stop <= |s| && s[eq] == '='
    ensures PrintEntry(Entry(s[i..start], s[start..end], s[end..eq], s[eq + 1..value], s[value..stop])) == s[i..stop]
  {
    assert s[eq..eq + 1] == "=";
    Joined(s, eq + 1, value, stop);
    Joined(s, eq, eq + 1, stop);
    Joined(s, end, eq, stop);
    Joined(s, start, end, stop);
    Joined(s, i, start, stop);
  }

  lemma EntriesJoin(s: string, i: nat, stop: nat, next: nat, e: Entry, more: seq<Entry>, rest: seq<Entry>)
    requires i <= stop < next <= |s| && s[stop] == ',' && PrintEntry(e) == s[i..stop] && WellFormed(e)
    requires AllOf(s[stop + 1..next], IsSpace)
    requires more != [] && AllWellFormed(more) && more[0].before == "" && s[next..] == PrintEntries(more)
    requires rest == more[0 := more[0].(before := s[stop + 1..next])]
    ensures AllWellFormed([e] + rest) && PrintEntries([e] + rest) == s[i..]
  {
    assert WellFormed(rest[0]) by { assert WellFormed(more[0]); }
    BeforeFirst(rest);
    assert Bare(rest) == more;
    var es := [e] + rest;
    assert es[0] == e && es[1..] == rest && |es| > 1;
    assert PrintEntries(es) == PrintEntry(e) + ("," + PrintEntries(rest));
    hide PrintEntry, PrintEntries, Bare, WellFormed, AllOf;
    SlicesJoin(s, i, stop, next);
  }

  lemma SlicesJoin(s: string, i: nat, stop: nat, next: nat)
    requires i <= stop < next <= |s| && s[stop] == ','
    ensures s[i..stop] + ("," + (s[stop + 1..next] + s[next..])) == s[i..]
  {
    assert s[stop + 1..next] + s[next..] == s[stop + 1..];
    assert "," + s[stop + 1..] == s[stop..];
  }

  /** From i to j, s consists of characters of a class. */
  predicate Spans(s: string, i: nat, j: nat, class_: char -> bool) {
    i <= j <= |s| && AllOf(s[i..j], class_)
  }

  predicate Named(s: string, start: nat, end: nat, p: nat) {
    && Spans(s, 0, start, IsSpace) && Spans(s, start, end, IsIdentifier) && Spans(s, end, p, IsSpace)
    && (start == end ==> p == end) && (p < |s| ==> s[p] == ':')
  }

  /** The parts of the object name of an accepted text. */
  lemma ParsedName(s: string) returns (start: nat, end: nat, p: nat)
    requires NUL !in s && !ParseText(s).Malformed?
    ensures Named(s, start, end, p)
    ensures p < |s| ==> !ParseOptions(s, p + 1, Token(s, start, end), map[]).Malformed?
  {
    start := Run(s, 0, IsSpace);
    end := Run(s, start, IsIdentifier);
    p := Run(s, end, IsSpace);
    NameAccepted(s, start, end, p);
    RunTwice(s, 0, start, IsSpace);
    hide Run, AllOf, ParseOptions, ParseText;
    RunIsAllOf(s, 0, IsSpace);
    RunIsAllOf(s, start, IsIdentifier);
    RunIsAllOf(s, end, IsSpace);
  }

  lemma NameAccepted(s: string, start: nat, end: nat, p: nat)
    requires start <= end <= p <= |s| && !ParseText(s).Malformed?
    requires Run(s, 0, IsSpace) == start && Run(s, start, IsIdentifier) == end && Run(s, end, IsSpace) == p
    ensures p < |s| ==> s[p] == ':' && !ParseOptions(s, p + 1, Token(s, start, end), map[]).Malformed?
  {
    hide Run, ParseOptions;
  }

  /** What the parser accepts is a printed document. */
  lemma DocumentExists(s: string) returns (d: Document)
    requires NUL !in s && !ParseText(s).Malformed?
    ensures WellFormedDocument(d) && PrintDocument(d) == s
  {
    var start, end, p := ParsedName(s);
    assert start <= end <= p <= |s|;
    hide *;
    if p < |s| {
      var es, tail := EntriesExist(s, p + 1, Token(s, start, end), map[]);
      d := WithOptionsDocument(s, start, end, p, es, tail);
    } else {
      d := NameOnlyDocument(s, start, end, p);
    }
  }

  lemma NameOnlyDocument(s: string, start: nat, end: nat, p: nat) returns (d: Document)
    requires Named(s, start, end, p) && p == |s|
    ensures WellFormedDocument(d) && PrintDocument(d) == s
  {
    d := Document(s[0..start], s[start..end], s[end..p], false, [], "");
    hide AllOf;
    assert s[end..p] + "" == s[end..p];
    Joined(s, start, end, p);
    Joined(s, 0, start, p);
  }

  lemma WithOptionsDocument(s: string, start: nat, end: nat, p: nat, es: seq<Entry>, tail: string) returns (d: Document)
    requires Named(s, start, end, p) && p < |s|
    requires AllWellFormed(es) && AllOf(tail, IsSpace) && (es != [] ==> tail == "")
    requires s[p + 1..] == PrintEntries(es) + tail
    ensures WellFormedDocument(d) && PrintDocument(d) == s
  {
    hide PrintEntries, AllWellFormed, AllOf;
    d := Document(s[0..start], s[start..end], s[end..p], true, es, tail);
    DocumentJoin(s, start, end, p, PrintOptions(d));
  }

  lemma DocumentJoin(s: string, start: nat, end: nat, p: nat, options: string)
    requires start <= end <= p < |s| && s[p] == ':' && s[p + 1..] == options
    ensures s[0..start] + (s[start..end] + (s[end..p] + (":" + options))) == s
  {
    assert s[p..p + 1] == ":";
    Joined(s, p, p + 1, |s|);
    Joined(s, end, p, |s|);
    Joined(s, start, end, |s|);
    Joined(s, 0, start, |s|);
  }

  /** The parser accepts exactly the printed documents. */
  lemma AcceptsDocuments(s: string)
    requires NUL !in s
    ensures !ParseText(s).Malformed? <==> exists d :: WellFormedDocument(d) && PrintDocument(d) == s
  {
    hide ParseText, PrintDocument, WellFormedDocument;
    if !ParseText(s).Malformed? {
      var d := DocumentExists(s);
    }
    forall d | WellFormedDocument(d) && PrintDocument(d) == s ensures !ParseText(s).Malformed? {
      DocumentParses(d);
    }
  }

  predicate EndsInSpace(s: string) {
    s != "" && IsSpace(s[|s| - 1])
  }

  function Trim(s: string): (t: string)
    ensures !EndsInSpace(t) && t <= s && (t == s <==> !EndsInSpace(s))
  {
    if EndsInSpace(s) then Trim(s[..|s| - 1]) else s
  }

  /** A document with the white space behind its values removed. */
  function Trimmed(d: Document): Document {
    d.(entries := TrimmedEntries(d.entries))
  }

  function TrimmedEntries(es: seq<Entry>): seq<Entry> {
    seq(|es|, i requires 0 <= i < |es| => es[i].(value := Trim(es[i].value)))
  }

  function TrimmedOptions(m: map<string, string>): map<string, string> {
    map k | k in m :: Trim(m[k])
  }

  lemma {:induction false} TrimmedOptionsOf(es: seq<Entry>, m: map<string, string>)
    ensures OptionsOf(TrimmedEntries(es), TrimmedOptions(m)) == TrimmedOptions(OptionsOf(es, m))
  {
    if es != [] {
      var m' := m[es[0].key := es[0].value];
      TrimmedOptionsOf(es[1..], m');
      assert TrimmedEntries(es)[1..] == TrimmedEntries(es[1..]);
      TrimmedUpdate(m, es[0].key, es[0].value);
      hide TrimmedOptions, Trim;
    }
  }

  lemma TrimmedUpdate(m: map<string, string>, key: string, value: string)
    ensures TrimmedOptions(m)[key := Trim(value)] == TrimmedOptions(m[key := value])
  {
    hide Trim;
  }

  ghost predicate IsLast(es: seq<Entry>, i: nat) {
    i < |es| && forall j :: i < j < |es| ==> es[j].key != es[i].key
  }

  lemma LastValues(es: seq<Entry>)
    ensures (forall k :: k in OptionsOf(es, map[]) ==> !EndsInSpace(OptionsOf(es, map[])[k])) <==>
            (forall i: nat :: IsLast(es, i) ==> !EndsInSpace(es[i].value))
  {
    var m := OptionsOf(es, map[]);
    hide OptionsOf;
    forall i: nat | IsLast(es, i) ensures es[i].key in m && m[es[i].key] == es[i].value {
      LastEntryWins(es, map[], es[i].key);
    }
    forall k | k in m ensures exists i: nat :: IsLast(es, i) && m[k] == es[i].value {
      LastEntryWins(es, map[], k);
      var i :| 0 <= i < |es| && es[i].key == k && (forall j :: i < j < |es| ==> es[j].key != k) && m[k] == es[i].value;
      assert IsLast(es, i);
    }
  }

  lemma TrimmedSame(m: map<string, string>)
    ensures TrimmedOptions(m) == m <==> forall k :: k in m ==> !EndsInSpace(m[k])
  {
    forall k | k in m ensures TrimmedOptions(m)[k] == m[k] <==> !EndsInSpace(m[k]) {}
  }

  /** The documentation promises values without white space around them. A text gets the meaning
      documented for it exactly when no value that is not replaced later ends in white space. */
  lemma TrimmingNeedsNone(d: Document)
    requires WellFormedDocument(d) && d.colon
    ensures Meaning(Trimmed(d)) == ParseText(PrintDocument(d)) <==>
            forall i: nat :: IsLast(d.entries, i) ==> !EndsInSpace(d.entries[i].value)
  {
    var m := OptionsOf(d.entries, map[]);
    DocumentParses(d);
    TrimmedOptionsOf(d.entries, map[]);
    assert TrimmedOptions(map[]) == map[];
    hide ParseText, PrintDocument, OptionsOf, TrimmedOptions, TrimmedEntries, IsLast, EndsInSpace;
    TrimmedSame(m);
    LastValues(d.entries);
  }

  lemma SpaceBehindValueStays()
    ensures var d := Document("", "a", "", true, [Entry("", "b", "", "", "c ")], "");
      ParseText(PrintDocument(d)) == WithOptions(Some("a"), map["b" := "c "])
  {
    var e := Entry("", "b", "", "", "c ");
    var d := Document("", "a", "", true, [e], "");
    assert WellFormed(e);
    DocumentParses(d);
    assert OptionsOf([e], map[]) == map["b" := "c "];
  }

  const TWO_OPTIONS :=
    Document("", "cam", "", true, [Entry(" ", "rate", " ", " ", "10 "), Entry("", "size", "", "", "2")], "")

  lemma TwoEntriesPrint()
    ensures PrintEntries(TWO_OPTIONS.entries) == " rate = 10 ,size=2"
  {
    var e, f := TWO_OPTIONS.entries[0], TWO_OPTIONS.entries[1];
    assert TWO_OPTIONS.entries[1..] == [f];
    assert PrintEntry(e) == " rate = 10 " && PrintEntry(f) == "size=2";
    assert PrintEntries([f]) == "size=2";
  }

  lemma TwoOptionsMean()
    ensures WellFormedDocument(TWO_OPTIONS)
    ensures Meaning(TWO_OPTIONS) == WithOptions(Some("cam"), map["rate" := "10 ", "size" := "2"])
  {
    var es := TWO_OPTIONS.entries;
    assert WellFormed(es[0]) && WellFormed(es[1]);
    assert es[1..] == [es[1]] && es[1..][1..] == [];
    assert OptionsOf(es[1..], map["rate" := "10 "]) == map["rate" := "10 ", "size" := "2"];
  }

  /** A concrete text, with its separators and white space. */
  lemma TwoOptionsParse()
    ensures ParseText("cam: rate = 10 ,size=2") == WithOptions(Some("cam"), map["rate" := "10 ", "size" := "2"])
  {
    hide ParseText, WellFormedDocument, Meaning, PrintEntries;
    TwoEntriesPrint();
    TwoOptionsMean();
    assert PrintDocument(TWO_OPTIONS) == "cam: rate = 10 ,size=2";
    DocumentParses(TWO_OPTIONS);
  }
}
