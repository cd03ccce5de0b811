/** server/messagerouting.c: the handler of a request is searched for in the sorted table of
    request names by narrowing a window of entries that agree with the request so far. */
module Router {
  import opened Basics

  /** A char, which is signed here: a request may hold negative ones. */
  type Char = c: int | -128 <= c < 128

  /** Strings without their terminator. */
  type Request = s: seq<Char> | 0 !in s
  type Name = s: seq<Char> | forall i :: 0 <= i < |s| ==> s[i] > 0

  datatype Mapping = Mapping(name: Name, callback: nat)

  /** The character at i, which is the terminator at the end. */
  function CharAt(s: seq<Char>, i: nat): Char
    requires i <= |s|
  {
    if i < |s| then s[i] else 0
  }

  function Strcmp(a: seq<Char>, b: seq<Char>): int {
    if CharAt(a, 0) != CharAt(b, 0) then CharAt(a, 0) - CharAt(b, 0)
    else if a == [] || b == [] then 0
    else Strcmp(a[1..], b[1..])
  }

  /** What SVRD_MessageRouter_init establishes. */
  ghost predicate Sorted(table: seq<Mapping>) {
    forall i, j :: 0 <= i < j < |table| ==> Strcmp(table[i].name, table[j].name) <= 0
  }

  /** The first entry with the name, found the slow way. */
  function Lookup(table: seq<Mapping>, request: Request): Option<Mapping> {
    if table == [] then None
    else if table[0].name == request then Some(table[0])
    else Lookup(table[1..], request)
  }

  lemma {:induction false} LookupAt(table: seq<Mapping>, request: Request, k: nat)
    requires k < |table| && table[k].name == request && (forall i :: 0 <= i < k ==> table[i].name != request)
    ensures Lookup(table, request) == Some(table[k])
  {
    if k > 0 {
      LookupAt(table[1..], request, k - 1);
    }
  }

  lemma {:induction false} LookupNone(table: seq<Mapping>, request: Request)
    requires forall i :: 0 <= i < |table| ==> table[i].name != request
    ensures Lookup(table, request) == None
  {
    if table != [] {
      LookupNone(table[1..], request);
    }
  }

  /** The name agrees with the request on its first n characters. */
  ghost predicate Agrees(name: Name, request: Request, n: nat) {
    n <= |name| && n <= |request| && forall i :: 0 <= i < n ==> name[i] == request[i]
  }

  /** Names in order that agree up to n are in order at n. */
  lemma {:induction false} OrderedAt(a: Name, b: Name, n: nat)
    requires Strcmp(a, b) <= 0 && n <= |a| && n <= |b| && (forall i :: 0 <= i < n ==> a[i] == b[i])
    ensures CharAt(a, n) <= CharAt(b, n)
  {
    if n > 0 {
      assert a[0] == b[0];
      OrderedAt(a[1..], b[1..], n - 1);
    }
  }

  /** What is known of the window [lower, upper] when n characters have been compared. */
  ghost predicate Window(table: seq<Mapping>, request: Request, lower: int, upper: int, n: nat) {
    && 0 <= lower <= upper < |table| && n <= |request|
    && (forall i :: lower <= i <= upper ==> Agrees(table[i].name, request, n))
    && (forall i :: 0 <= i < |table| && !(lower <= i <= upper) ==> table[i].name != request)
  }

  /** Both ends of the window match the next character, so all of it does. */
  lemma WindowNarrows(table: seq<Mapping>, request: Request, lower: int, upper: int, n: nat)
    requires Sorted(table) && Window(table, request, lower, upper, n)
    requires CharAt(table[lower].name, n) >= CharAt(request, n) >= CharAt(table[upper].name, n)
    ensures forall i :: lower <= i <= upper ==> CharAt(table[i].name, n) == CharAt(request, n)
  {
    forall i | lower <= i <= upper ensures CharAt(table[i].name, n) == CharAt(request, n) {
      if lower < i { OrderedAt(table[lower].name, table[i].name, n); }
      if i < upper { OrderedAt(table[i].name, table[upper].name, n); }
    }
  }

  /** PastEnd: the search reads behind the terminator of a name. */
  datatype Outcome = Missing | Found(index: nat) | PastEnd

  /** The search from a window and a number of characters compared on, in any table. */
  function Narrow(table: seq<Mapping>, request: Request, lower: nat, upper: nat, n: nat): Outcome
    requires lower <= upper < |table| && n <= |request|
    decreases |request| - n, upper - lower
  {
    if n > |table[lower].name| then PastEnd
    else if CharAt(table[lower].name, n) < CharAt(request, n) then
      if lower == upper then Missing else Narrow(table, request, lower + 1, upper, n)
    else if n > |table[upper].name| then PastEnd
    else if CharAt(table[upper].name, n) > CharAt(request, n) then
      if lower == upper then Missing else Narrow(table, request, lower, upper - 1, n)
    else if n == |request| then Found(lower)
    else Narrow(table, request, lower, upper, n + 1)
  }

  /** The search in the whole table. */
  function Searched(table: seq<Mapping>, request: Request): Outcome
    requires table != []
  {
    Narrow(table, request, 0, |table| - 1, 0)
  }

  /** An outcome of the search agrees with a linear search. */
  ghost predicate AsLookup(table: seq<Mapping>, request: Request, o: Outcome) {
    match o
    case Missing => Lookup(table, request) == None
    case Found(i) => i < |table| && Lookup(table, request) == Some(table[i])
    case PastEnd => false
  }

  lemma NotThere(table: seq<Mapping>, request: Request, only: nat, n: nat)
    requires Window(table, request, only, only, n) && CharAt(table[only].name, n) != CharAt(request, n)
    ensures AsLookup(table, request, Missing)
  {
    LookupNone(table, request);
  }

  /** An end of the window that does not match the next character is not what is searched for. */
  lemma OneOut(table: seq<Mapping>, request: Request, lower: nat, upper: nat, n: nat)
    requires Window(table, request, lower, upper, n) && lower < upper
    ensures n <= |table[lower].name| && n <= |table[upper].name|
    ensures CharAt(table[lower].name, n) != CharAt(request, n) ==> Window(table, request, lower + 1, upper, n)
    ensures CharAt(table[upper].name, n) != CharAt(request, n) ==> Window(table, request, lower, upper - 1, n)
  {
  }

  lemma AllMatch(table: seq<Mapping>, request: Request, lower: nat, upper: nat, n: nat)
    requires Sorted(table) && Window(table, request, lower, upper, n)
    requires CharAt(table[lower].name, n) >= CharAt(request, n) >= CharAt(table[upper].name, n)
    ensures n < |request| ==> Window(table, request, lower, upper, n + 1)
    ensures n == |request| ==> AsLookup(table, request, Found(lower))
  {
    WindowNarrows(table, request, lower, upper, n);
    if n == |request| {
      LookupAt(table, request, lower);
    }
  }

  /** On a sorted table no character behind a terminator is read, and what is found is what a
      linear search finds. */
  lemma {:induction false} SortedIsSearched(table: seq<Mapping>, request: Request, lower: nat, upper: nat, n: nat)
    requires Sorted(table) && Window(table, request, lower, upper, n)
    ensures AsLookup(table, request, Narrow(table, request, lower, upper, n))
    decreases |request| - n, upper - lower
  {
    hide AsLookup, Sorted;
    var low, high, c := CharAt(table[lower].name, n), CharAt(table[upper].name, n), CharAt(request, n);
    if low < c {
      if lower == upper {
        NotThere(table, request, lower, n);
      } else {
        OneOut(table, request, lower, upper, n);
        SortedIsSearched(table, request, lower + 1, upper, n);
      }
    } else if high > c {
      if lower == upper {
        NotThere(table, request, lower, n);
      } else {
        OneOut(table, request, lower, upper, n);
        SortedIsSearched(table, request, lower, upper - 1, n);
      }
    } else {
      AllMatch(table, request, lower, upper, n);
      if n < |request| {
        SortedIsSearched(table, request, lower, upper, n + 1);
      }
    }
  }

  lemma WholeTable(table: seq<Mapping>, request: Request)
    requires table != []
    ensures Sorted(table) ==> AsLookup(table, request, Searched(table, request))
  {
    if Sorted(table) {
      SortedIsSearched(table, request, 0, |table| - 1, 0);
    }
  }

  /** SVRD_findRequestMapping, on any table. */
  method FindRequestMapping(requestTypes: array<Mapping>, request: Request) returns (r: Outcome)
    requires requestTypes.Length > 0
    ensures r == Searched(requestTypes[..], request)
    ensures Sorted(requestTypes[..]) ==> AsLookup(requestTypes[..], request, r)
  {
    hide AsLookup, Sorted;
    ghost var table := requestTypes[..];
    ghost var goal := Narrow(table, request, 0, requestTypes.Length - 1, 0);
    WholeTable(table, request);
    var lower, upper, sindex := 0, requestTypes.Length - 1, 0;
    while true
      invariant 0 <= lower <= upper < requestTypes.Length && sindex <= |request|
      invariant goal == Narrow(table, request, lower, upper, sindex)
      decreases |request| - sindex
    {
      while sindex <= |requestTypes[lower].name| && CharAt(requestTypes[lower].name, sindex) < CharAt(request, sindex)
        invariant 0 <= lower <= upper
        invariant goal == Narrow(table, request, lower, upper, sindex)
        decreases upper - lower
      {
        lower := lower + 1;
        if lower > upper {
          return Missing;
        }
      }
      if sindex > |requestTypes[lower].name| {
        return PastEnd;
      }
      while sindex <= |requestTypes[upper].name| && CharAt(requestTypes[upper].name, sindex) > CharAt(request, sindex)
        invariant lower <= upper < requestTypes.Length
        invariant goal == Narrow(table, request, lower, upper, sindex)
        decreases upper - lower
      {
        upper := upper - 1;
        if lower > upper {
          return Missing;
        }
      }
      if sindex > |requestTypes[upper].name| {
        return PastEnd;
      }
      if CharAt(request, sindex) == 0 {
        return Found(lower);
      }
      sindex := sindex + 1;
    }
  }

  ghost predicate DistinctNames(table: seq<Mapping>) {
    forall i, j :: 0 <= i < j < |table| ==> table[i].name != table[j].name
  }

  /** Where two names that are out of order differ first. */
  lemma {:induction false} FirstDifference(a: Name, b: Name) returns (p: nat)
    requires Strcmp(a, b) > 0
    ensures p < |a| && p <= |b| && CharAt(a, p) > CharAt(b, p) && forall i :: 0 <= i < p ==> a[i] == b[i]
  {
    if CharAt(a, 0) != CharAt(b, 0) {
      p := 0;
    } else {
      var q := FirstDifference(a[1..], b[1..]);
      p := q + 1;
      assert forall i :: 0 <= i < p ==> a[i] == b[i] by {
        forall i | 0 <= i < p ensures a[i] == b[i] {
          if i > 0 { assert a[1..][i - 1] == b[1..][i - 1]; }
        }
      }
    }
  }

  /** An entry that is nowhere below the request keeps the lower end in front of it. */
  ghost predicate Stops(name: Name, request: Request, n: nat)
    requires n <= |request|
  {
    forall m :: n <= m <= |request| ==> m <= |name| && CharAt(name, m) >= CharAt(request, m)
  }

  lemma {:induction false} NotPassed(table: seq<Mapping>, request: Request, lower: nat, upper: nat, n: nat, i: nat)
    requires lower <= upper < |table| && n <= |request| && lower <= i < |table|
    requires Stops(table[i].name, request, n)
    ensures var o := Narrow(table, request, lower, upper, n); o.Found? ==> o.index <= i
    decreases |request| - n, upper - lower
  {
    if n > |table[lower].name| {
    } else if CharAt(table[lower].name, n) < CharAt(request, n) {
      if lower < upper {
        NotPassed(table, request, lower + 1, upper, n, i);
      }
    } else if n > |table[upper].name| {
    } else if CharAt(table[upper].name, n) > CharAt(request, n) {
      if lower < upper {
        NotPassed(table, request, lower, upper - 1, n, i);
      }
    } else if n < |request| {
      NotPassed(table, request, lower, upper, n + 1, i);
    }
  }

  /** The request made of two names that first differ at p: the first one up to there, the second
      one behind. */
  function Crossed(a: Name, b: Name, p: nat): Request
    requires p < |a| && p <= |b|
  {
    a[..p + 1] + if p < |b| then b[p + 1..] else []
  }

  /** How entries k and l, out of order and with names that first differ at p, relate to it. */
  ghost predicate OutOfOrder(table: seq<Mapping>, request: Request, k: nat, l: nat, p: nat) {
    && k < l < |table| && p < |table[k].name| && p <= |table[l].name| && p < |request|
    && CharAt(table[k].name, p) > CharAt(table[l].name, p)
    && (forall i :: 0 <= i < p ==> table[k].name[i] == table[l].name[i])
    && (forall i :: 0 <= i <= p ==> request[i] == table[k].name[i])
    && (if |table[l].name| == p then |request| == p + 1
        else |request| == |table[l].name| && forall i :: p < i < |request| ==> request[i] == table[l].name[i])
  }

  /** The search for it does not get past entry l, in either direction. */
  lemma {:induction false} NotMissed(table: seq<Mapping>, request: Request, lower: nat, upper: nat, n: nat,
                                     k: nat, l: nat, p: nat)
    requires OutOfOrder(table, request, k, l, p) && n <= |request| && upper < |table|
    requires lower <= (if n <= p then k else l) && l <= upper
    ensures var o := Narrow(table, request, lower, upper, n); o.PastEnd? || (o.Found? && o.index <= l)
    decreases |request| - n, upper - lower
  {
    if n > |table[lower].name| {
    } else if CharAt(table[lower].name, n) < CharAt(request, n) {
      NotMissed(table, request, lower + 1, upper, n, k, l, p);
    } else if n > |table[upper].name| {
    } else if CharAt(table[upper].name, n) > CharAt(request, n) {
      NotMissed(table, request, lower, upper - 1, n, k, l, p);
    } else if n < |request| {
      NotMissed(table, request, lower, upper, n + 1, k, l, p);
    }
  }

  lemma CrossedIsOutOfOrder(table: seq<Mapping>, k: nat, l: nat) returns (request: Request, p: nat)
    requires k < l < |table| && Strcmp(table[k].name, table[l].name) > 0
    ensures OutOfOrder(table, request, k, l, p)
  {
    hide Strcmp;
    p := FirstDifference(table[k].name, table[l].name);
    request := Crossed(table[k].name, table[l].name, p);
  }

  lemma OutOfOrderStops(table: seq<Mapping>, name: Name, k: nat, l: nat, p: nat)
    requires OutOfOrder(table, name, k, l, p)
    ensures Stops(name, table[l].name, 0) && name != table[l].name
  {
    assert name[p] != CharAt(table[l].name, p);
  }

  /** The request crossed from two entries out of order finds nothing right, unless an entry in
      front of the second one has that name. */
  lemma CrossedFound(table: seq<Mapping>, k: nat, l: nat) returns (request: Request, i: nat)
    requires k < l < |table| && Strcmp(table[k].name, table[l].name) > 0
    ensures AsLookup(table, request, Searched(table, request)) ==>
      i < l && table[i].name == request && Stops(table[i].name, table[l].name, 0)
  {
    hide Narrow, AsLookup, Strcmp, OutOfOrder, Stops;
    var p;
    request, p := CrossedIsOutOfOrder(table, k, l);
    NotMissed(table, request, 0, |table| - 1, 0, k, l, p);
    var o := Searched(table, request);
    i := if o.Found? then o.index else 0;
    if AsLookup(table, request, o) {
      FoundHasName(table, request, o);
      OutOfOrderStops(table, table[i].name, k, l, p);
    }
  }

  lemma FoundHasName(table: seq<Mapping>, request: Request, o: Outcome)
    requires AsLookup(table, request, o)
    ensures !o.PastEnd? && (o.Found? ==> o.index < |table| && table[o.index].name == request)
    ensures o.Missing? ==> forall i :: 0 <= i < |table| ==> table[i].name != request
  {
    LookupFinds(table, request);
  }

  /** With two entries out of order, one of two requests goes wrong. */
  lemma UnsortedFails(table: seq<Mapping>, k: nat, l: nat) returns (request: Request)
    requires k < l < |table| && DistinctNames(table) && Strcmp(table[k].name, table[l].name) > 0
    ensures !AsLookup(table, request, Searched(table, request))
  {
    hide Narrow, AsLookup, Strcmp, Searched, Stops;
    var i;
    request, i := CrossedFound(table, k, l);
    if AsLookup(table, request, Searched(table, request)) {
      request := table[l].name;
      SearchStopsAt(table, request, i);
      if AsLookup(table, request, Searched(table, request)) {
        FoundHasName(table, request, Searched(table, request));
      }
    }
  }

  lemma SearchStopsAt(table: seq<Mapping>, request: Request, i: nat)
    requires i < |table| && Stops(table[i].name, request, 0)
    ensures var o := Searched(table, request); o.Found? ==> o.index <= i
  {
    NotPassed(table, request, 0, |table| - 1, 0, i);
  }

  /** What a linear search finds has the name, and it finds something if an entry has it. */
  lemma {:induction false} LookupFinds(table: seq<Mapping>, request: Request)
    ensures Lookup(table, request).Some? ==> Lookup(table, request).value.name == request
    ensures Lookup(table, request).None? ==> forall i :: 0 <= i < |table| ==> table[i].name != request
  {
    if table != [] && table[0].name != request {
      LookupFinds(table[1..], request);
      assert forall i :: 0 < i < |table| ==> table[i] == table[1..][i - 1];
    }
  }

  /** On a table without two entries of one name the search is right for every request exactly
      when the table is sorted. */
  lemma SearchExact(table: seq<Mapping>)
    requires table != [] && DistinctNames(table)
    ensures Sorted(table) <==> forall request: Request :: AsLookup(table, request, Searched(table, request))
  {
    if Sorted(table) {
      forall request: Request ensures AsLookup(table, request, Searched(table, request)) {
        WholeTable(table, request);
      }
    } else {
      var k, l :| 0 <= k < l < |table| && Strcmp(table[k].name, table[l].name) > 0;
      var request := UnsortedFails(table, k, l);
    }
  }

  const STREAM_ORPHANED: Name := [83, 116, 114, 101, 97, 109, 46, 111, 114, 112, 104, 97, 110, 101, 100]
  const DATA: Name := [68, 97, 116, 97]
  const RATA: Name := [82, 97, 116, 97]
  const SVR_KICK: Name := [83, 86, 82, 46, 107, 105, 99, 107]

  /** The table of a client, which nothing sorts. */
  const CLIENT_TABLE := [Mapping(STREAM_ORPHANED, 0), Mapping(DATA, 1), Mapping(SVR_KICK, 2)]

  /** Neither end of the window leaves it at character i. */
  ghost predicate BothStayAt(table: seq<Mapping>, request: Request, lower: nat, upper: nat, i: nat)
    requires lower <= upper < |table| && i <= |request|
  {
    && i <= |table[lower].name| && CharAt(table[lower].name, i) >= CharAt(request, i)
    && i <= |table[upper].name| && CharAt(table[upper].name, i) <= CharAt(request, i)
  }

  lemma {:induction false} BothStay(table: seq<Mapping>, request: Request, lower: nat, upper: nat, n: nat, m: nat)
    requires lower <= upper < |table| && n <= m <= |request|
    requires forall i :: n <= i < m ==> BothStayAt(table, request, lower, upper, i)
    ensures Narrow(table, request, lower, upper, n) == Narrow(table, request, lower, upper, m)
    decreases m - n
  {
    if n < m {
      assert BothStayAt(table, request, lower, upper, n);
      BothStay(table, request, lower, upper, n + 1, m);
    }
  }

  /** It is not in order, so the search in it is not right for every request. */
  lemma ClientTableFails()
    ensures DistinctNames(CLIENT_TABLE) && !Sorted(CLIENT_TABLE)
    ensures exists request: Request :: !AsLookup(CLIENT_TABLE, request, Searched(CLIENT_TABLE, request))
  {
    assert Strcmp(CLIENT_TABLE[0].name, CLIENT_TABLE[1].name) > 0;
    assert forall i :: 0 <= i < 3 ==> CharAt(CLIENT_TABLE[i].name, 1) == [116, 97, 86][i];
    assert DistinctNames(CLIENT_TABLE);
    SearchExact(CLIENT_TABLE);
  }

  /** There two of three messages get to their handlers. The search for the third reads behind the
      end of another name. */
  lemma ClientTableSearched()
    ensures Searched(CLIENT_TABLE, DATA) == Found(1)
    ensures Searched(CLIENT_TABLE, SVR_KICK) == Found(2)
    ensures Searched(CLIENT_TABLE, STREAM_ORPHANED) == PastEnd
  {
    BothStay(CLIENT_TABLE, DATA, 0, 1, 0, 2);
    BothStay(CLIENT_TABLE, DATA, 1, 1, 2, 4);
    BothStay(CLIENT_TABLE, SVR_KICK, 0, 2, 0, 4);
    BothStay(CLIENT_TABLE, SVR_KICK, 2, 2, 4, 8);
    BothStay(CLIENT_TABLE, STREAM_ORPHANED, 0, 2, 0, 4);
    BothStay(CLIENT_TABLE, STREAM_ORPHANED, 0, 1, 4, 5);
  }

  /** A message that has no handler there gets to that for data. */
  lemma UnknownIsFound()
    ensures Searched(CLIENT_TABLE, RATA) == Found(1) && Lookup(CLIENT_TABLE, RATA) == None
  {
    assert CharAt(STREAM_ORPHANED, 1) != CharAt(RATA, 1);
    LookupNone(CLIENT_TABLE, RATA);
    BothStay(CLIENT_TABLE, RATA, 0, 1, 0, 2);
    BothStay(CLIENT_TABLE, RATA, 1, 1, 2, 4);
  }
}
