/** server/source.c: the registry of sources by name and the references that keep a source
    alive. Each step is a region run under a lock; threads interleave freely. */
module Registry {
  import opened Basics
  import opened RefCounts

  type Name = string
  type HandleId = nat
  type ThreadId = nat

  /** `selfRef` records whether the source still holds the reference it was created with. */
  datatype Source = Source(name: Name, closed: bool, selfRef: bool)

  /** Where a thread is inside SVRD_Source_destroy: behind the closed flag, or behind the
      removal from the registry. */
  datatype Destroying = Closing(source: Address) | Removed(source: Address)

  datatype State = State(
    sources: map<Address, Source>,        // allocated and not yet cleaned up
    counters: Counters,
    registry: map<Name, Address>,
    handles: map<HandleId, Address>,      // references held by requests and streams
    destroyers: map<ThreadId, Destroying>)

  datatype Step =
    | Open(name: Name, at: Address)       // SVRD_Source_new
    | Lookup(h: HandleId, name: Name)     // getByName and getLockedSource
    | Release(h: HandleId)                // a request or a re-attached stream lets go
    | Close(t: ThreadId, source: Address) // destroy, up to the closed flag
    | Unregister(t: ThreadId)             // destroy, the registry
    | DropSelf(t: ThreadId)               // destroy, the source's own reference
    | CleanUp                             // the collector

  const INITIAL := State(map[], NO_COUNTERS, map[], map[], map[])

  ghost predicate Holding(handles: map<HandleId, Address>, a: Address) {
    exists h :: h in handles && handles[h] == a
  }

  /** destroy is called with a pointer to a source that is still allocated, closed or not. */
  ghost predicate Enabled(s: State, step: Step) {
    match step
    case Open(_, at) => at !in s.sources
    case Lookup(h, _) => h !in s.handles
    case Release(h) => h in s.handles
    case Close(t, a) => t !in s.destroyers && a in s.sources
    case Unregister(t) => t in s.destroyers && s.destroyers[t].Closing?
    case DropSelf(t) => t in s.destroyers && s.destroyers[t].Removed?
    case CleanUp => s.counters.garbage != []
  }

  /** What is accessed is still allocated, a count that is raised is not 0, and one that is
      lowered is not 0. */
  ghost predicate Defined(s: State, step: Step)
    requires Enabled(s, step)
  {
    match step
    case Open(_, _) => true
    case Lookup(_, name) => name in s.registry ==> Live(s.counters, s.registry[name])
    case Release(h) => Live(s.counters, s.handles[h])
    case Close(_, _) => true
    case Unregister(t) => s.destroyers[t].source in s.sources
    case DropSelf(t) => s.destroyers[t].source in s.sources && Live(s.counters, s.destroyers[t].source)
    case CleanUp => s.counters.garbage[0] in s.sources
  }

  function Apply(s: State, step: Step): State
    requires Enabled(s, step) && Defined(s, step)
  {
    match step
    case Open(name, at) =>
      if name in s.registry then s
      else s.(sources := s.sources[at := Source(name, false, true)], counters := New(s.counters, at),
              registry := s.registry[name := at])
    case Lookup(h, name) =>
      if name !in s.registry then s
      else s.(counters := Ref(s.counters, s.registry[name]), handles := s.handles[h := s.registry[name]])
    case Release(h) =>
      s.(counters := Unref(s.counters, s.handles[h]), handles := s.handles - {h})
    case Close(t, a) =>
      if s.sources[a].closed then s
      else s.(sources := s.sources[a := s.sources[a].(closed := true)], destroyers := s.destroyers[t := Closing(a)])
    case Unregister(t) =>
      var a := s.destroyers[t].source;
      if s.sources[a].name !in s.registry then s.(destroyers := s.destroyers - {t})
      else s.(registry := s.registry - {s.sources[a].name}, destroyers := s.destroyers[t := Removed(a)])
    case DropSelf(t) =>
      var a := s.destroyers[t].source;
      s.(sources := s.sources[a := s.sources[a].(selfRef := false)], counters := Unref(s.counters, a),
         destroyers := s.destroyers - {t})
    case CleanUp =>
      s.(sources := s.sources - {s.counters.garbage[0]}, counters := Collect(s.counters))
  }

  ghost function Handles(handles: map<HandleId, Address>, a: Address): set<HandleId> {
    set h | h in handles && handles[h] == a
  }

  /** 1 for the source's own reference and 1 for every handle. */
  ghost function References(sources: map<Address, Source>, handles: map<HandleId, Address>): Address -> nat {
    a => (if a in sources && sources[a].selfRef then 1 else 0) + |Handles(handles, a)|
  }

  ghost function SelfCount(sources: map<Address, Source>, a: Address): nat {
    if a in sources && sources[a].selfRef then 1 else 0
  }

  lemma ReferencesSplit(sources: map<Address, Source>, handles: map<HandleId, Address>)
    ensures forall a: Address :: References(sources, handles)(a) == SelfCount(sources, a) + |Handles(handles, a)|
  {
  }

  ghost predicate Counted(s: State) {
    && Exact(s.counters, References(s.sources, s.handles))
    && s.counters.count.Keys == s.sources.Keys
    && (forall h :: h in s.handles ==> s.handles[h] in s.sources)
  }

  /** A registered source has its name and its own reference; a source that is not closed is
      registered; one being destroyed is closed, has its own reference, is destroyed by one
      thread only, and is registered until that thread has removed it. */
  ghost predicate Registered(s: State) {
    && (forall n :: n in s.registry ==>
          s.registry[n] in s.sources && s.sources[s.registry[n]].name == n && s.sources[s.registry[n]].selfRef)
    && (forall a :: a in s.sources && !s.sources[a].closed ==> IsRegistered(s, a))
    && (forall t :: t in s.destroyers ==> DestroyerOk(s, s.destroyers[t]))
    && (forall t, u :: t in s.destroyers && u in s.destroyers && s.destroyers[t].source == s.destroyers[u].source ==>
          t == u)
  }

  ghost predicate IsRegistered(s: State, a: Address)
    requires a in s.sources
  {
    s.sources[a].name in s.registry && s.registry[s.sources[a].name] == a
  }

  ghost predicate DestroyerOk(s: State, d: Destroying) {
    && d.source in s.sources && s.sources[d.source].closed && s.sources[d.source].selfRef
    && (d.Closing? <==> IsRegistered(s, d.source))
  }

  ghost predicate Inv(s: State) {
    Counted(s) && Registered(s)
  }

  lemma InitialInv()
    ensures Inv(INITIAL)
  {
  }

  lemma HandleAdded(handles: map<HandleId, Address>, h: HandleId, to: Address, a: Address)
    requires h !in handles
    ensures |Handles(handles[h := to], a)| == |Handles(handles, a)| + if to == a then 1 else 0
  {
    assert Handles(handles[h := to], a) == Handles(handles, a) + if to == a then {h} else {};
  }

  lemma HandleRemoved(handles: map<HandleId, Address>, h: HandleId, a: Address)
    requires h in handles
    ensures |Handles(handles - {h}, a)| + (if handles[h] == a then 1 else 0) == |Handles(handles, a)|
  {
    assert Handles(handles - {h}, a) == Handles(handles, a) - {h};
  }

  lemma OpenKeepsCounts(s: State, name: Name, at: Address)
    requires Inv(s) && Enabled(s, Open(name, at))
    ensures Counted(Apply(s, Open(name, at)))
  {
    hide Registered, Exact, References;
    if name !in s.registry {
      assert Handles(s.handles, at) == {};
      var sources := s.sources[at := Source(name, false, true)];
      ReferencesSplit(s.sources, s.handles);
      ReferencesSplit(sources, s.handles);
      NewExact(s.counters, References(s.sources, s.handles), References(sources, s.handles), at);
    }
  }

  lemma HandleCounted(counters: Counters, sources: map<Address, Source>, handles: map<HandleId, Address>,
                      h: HandleId, a: Address)
    requires Exact(counters, References(sources, handles)) && h !in handles
    requires a in counters.count && SelfCount(sources, a) == 1
    ensures Live(counters, a) && Exact(Ref(counters, a), References(sources, handles[h := a]))
  {
    ReferencesSplit(sources, handles);
    ReferencesSplit(sources, handles[h := a]);
    assert References(sources, handles)(a) > 0 && Live(counters, a);
    hide Exact, References, Handles, Live;
    forall b: Address { HandleAdded(handles, h, a, b); }
    RefExact(counters, References(sources, handles), References(sources, handles[h := a]), a);
  }

  /** A registered source still has its own reference, so a lookup never revives a dead one. */
  lemma LookupKeepsCounts(s: State, h: HandleId, name: Name)
    requires Inv(s) && Enabled(s, Lookup(h, name))
    ensures Defined(s, Lookup(h, name)) && Counted(Apply(s, Lookup(h, name)))
  {
    hide Exact, References;
    if name in s.registry {
      HandleCounted(s.counters, s.sources, s.handles, h, s.registry[name]);
    }
  }

  lemma HandleUncounted(counters: Counters, sources: map<Address, Source>, handles: map<HandleId, Address>, h: HandleId)
    requires Exact(counters, References(sources, handles)) && h in handles && handles[h] in counters.count
    ensures Live(counters, handles[h]) && Exact(Unref(counters, handles[h]), References(sources, handles - {h}))
  {
    ReferencesSplit(sources, handles);
    ReferencesSplit(sources, handles - {h});
    hide Exact, References, Handles;
    forall b: Address { HandleRemoved(handles, h, b); }
    UnrefExact(counters, References(sources, handles), References(sources, handles - {h}), handles[h]);
  }

  lemma ReleaseKeepsCounts(s: State, h: HandleId)
    requires Inv(s) && Enabled(s, Release(h))
    ensures Defined(s, Release(h)) && Counted(Apply(s, Release(h)))
  {
    hide Registered, Exact, References;
    HandleUncounted(s.counters, s.sources, s.handles, h);
  }

  lemma CloseKeepsCounts(s: State, t: ThreadId, a: Address)
    requires Inv(s) && Enabled(s, Close(t, a))
    ensures Counted(Apply(s, Close(t, a)))
  {
    hide Registered, Exact, References, Handles;
    var s' := Apply(s, Close(t, a));
    ReferencesSplit(s.sources, s.handles);
    ReferencesSplit(s'.sources, s.handles);
    SameExact(s.counters, References(s.sources, s.handles), References(s'.sources, s.handles));
  }

  lemma SelfUncounted(counters: Counters, sources: map<Address, Source>, sources': map<Address, Source>,
                      handles: map<HandleId, Address>, a: Address)
    requires Exact(counters, References(sources, handles)) && a in counters.count && a in sources && sources[a].selfRef
    requires sources' == sources[a := sources[a].(selfRef := false)]
    ensures Live(counters, a) && Exact(Unref(counters, a), References(sources', handles))
  {
    hide Exact, References, Handles;
    ReferencesSplit(sources, handles);
    ReferencesSplit(sources', handles);
    UnrefExact(counters, References(sources, handles), References(sources', handles), a);
  }

  /** The source's own reference is still there to be dropped. */
  lemma DropSelfKeepsCounts(s: State, t: ThreadId)
    requires Inv(s) && Enabled(s, DropSelf(t))
    ensures Defined(s, DropSelf(t)) && Counted(Apply(s, DropSelf(t)))
  {
    hide Exact, References, Handles, Live;
    var a := s.destroyers[t].source;
    assert DestroyerOk(s, s.destroyers[t]);
    SelfUncounted(s.counters, s.sources, s.sources[a := s.sources[a].(selfRef := false)], s.handles, a);
  }

  /** What is cleaned up has no reference left, its own included. */
  lemma NoReferences(s: State)
    requires Counted(s) && s.counters.garbage != []
    ensures var a := s.counters.garbage[0];
      a in s.sources && !s.sources[a].selfRef && !Holding(s.handles, a)
  {
    var a := s.counters.garbage[0];
    CollectExact(s.counters, References(s.sources, s.handles));
    assert forall h :: h in s.handles && s.handles[h] == a ==> h in Handles(s.handles, a);
  }

  lemma CleanUpKeepsCounts(s: State)
    requires Inv(s) && Enabled(s, CleanUp)
    ensures Defined(s, CleanUp) && Counted(Apply(s, CleanUp))
  {
    hide Registered, Exact;
    NoReferences(s);
    CollectExact(s.counters, References(s.sources, s.handles));
    var a, sources := s.counters.garbage[0], s.sources - {s.counters.garbage[0]};
    assert forall b: Address :: References(sources, s.handles)(b) == References(s.sources, s.handles)(b);
    SameExact(Collect(s.counters), References(s.sources, s.handles), References(sources, s.handles));
    assert forall h :: h in s.handles ==> s.handles[h] != a;
  }

  lemma CountedSteps(s: State, step: Step)
    requires Inv(s) && Enabled(s, step)
    ensures Defined(s, step) && Counted(Apply(s, step))
  {
    hide Exact, References, Live;
    match step {
      case Open(name, at) => OpenKeepsCounts(s, name, at);
      case Lookup(h, name) => LookupKeepsCounts(s, h, name);
      case Release(h) => ReleaseKeepsCounts(s, h);
      case Close(t, a) => CloseKeepsCounts(s, t, a);
      case Unregister(t) => assert DestroyerOk(s, s.destroyers[t]);
      case DropSelf(t) => DropSelfKeepsCounts(s, t);
      case CleanUp => CleanUpKeepsCounts(s);
    }
  }

  lemma RegisteredOpen(s: State, name: Name, at: Address)
    requires Registered(s) && Enabled(s, Open(name, at))
    ensures Registered(Apply(s, Open(name, at)))
  {
    var s' := Apply(s, Open(name, at));
    hide New;
    forall a | a in s'.sources && !s'.sources[a].closed ensures IsRegistered(s', a) {
      if a in s.sources { assert s.sources[a].closed || IsRegistered(s, a); }
    }
    forall t | t in s'.destroyers ensures DestroyerOk(s', s'.destroyers[t]) {
      assert DestroyerOk(s, s.destroyers[t]);
    }
  }

  lemma RegisteredClose(s: State, t: ThreadId, a: Address)
    requires Registered(s) && Enabled(s, Close(t, a))
    ensures Registered(Apply(s, Close(t, a)))
  {
    var s' := Apply(s, Close(t, a));
    if !s.sources[a].closed {
      assert IsRegistered(s, a);
      forall b | b in s'.sources && !s'.sources[b].closed ensures IsRegistered(s', b) {
        assert IsRegistered(s, b);
      }
      forall u | u in s'.destroyers ensures DestroyerOk(s', s'.destroyers[u]) {
        if u in s.destroyers { assert DestroyerOk(s, s.destroyers[u]); }
      }
    }
  }

  lemma RegisteredUnregister(s: State, t: ThreadId)
    requires Registered(s) && Enabled(s, Unregister(t)) && Defined(s, Unregister(t))
    ensures Registered(Apply(s, Unregister(t)))
  {
    var s', a := Apply(s, Unregister(t)), s.destroyers[t].source;
    assert DestroyerOk(s, s.destroyers[t]) && IsRegistered(s, a);
    forall b | b in s'.sources && !s'.sources[b].closed ensures IsRegistered(s', b) {
      assert IsRegistered(s, b);
    }
    forall u | u in s'.destroyers ensures DestroyerOk(s', s'.destroyers[u]) {
      assert DestroyerOk(s, s.destroyers[u]);
    }
  }

  lemma RegisteredDropSelf(s: State, t: ThreadId)
    requires Registered(s) && Enabled(s, DropSelf(t)) && Defined(s, DropSelf(t))
    ensures Registered(Apply(s, DropSelf(t)))
  {
    var s' := Apply(s, DropSelf(t));
    hide Unref, Live;
    assert DestroyerOk(s, s.destroyers[t]);
    forall b | b in s'.sources && !s'.sources[b].closed ensures IsRegistered(s', b) {
      assert IsRegistered(s, b);
    }
    forall u | u in s'.destroyers ensures DestroyerOk(s', s'.destroyers[u]) {
      assert DestroyerOk(s, s.destroyers[u]);
    }
  }

  /** What is cleaned up is neither registered nor being destroyed. */
  lemma RegisteredCleanUp(s: State)
    requires Registered(s) && Enabled(s, CleanUp) && Defined(s, CleanUp)
    requires !s.sources[s.counters.garbage[0]].selfRef
    ensures Registered(Apply(s, CleanUp))
  {
    var s' := Apply(s, CleanUp);
    hide Collect;
    forall b | b in s'.sources && !s'.sources[b].closed ensures IsRegistered(s', b) {
      assert IsRegistered(s, b);
    }
    forall u | u in s'.destroyers ensures DestroyerOk(s', s'.destroyers[u]) {
      assert DestroyerOk(s, s.destroyers[u]);
    }
  }

  lemma RegisteredSame(s: State, s': State)
    requires Registered(s) && s'.sources == s.sources && s'.registry == s.registry && s'.destroyers == s.destroyers
    ensures Registered(s')
  {
    forall a | a in s'.sources && !s'.sources[a].closed ensures IsRegistered(s', a) {
      assert IsRegistered(s, a);
    }
    forall t | t in s'.destroyers ensures DestroyerOk(s', s'.destroyers[t]) {
      assert DestroyerOk(s, s.destroyers[t]);
    }
  }

  lemma RegisteredSteps(s: State, step: Step)
    requires Inv(s) && Enabled(s, step) && Defined(s, step)
    ensures Registered(Apply(s, step))
  {
    hide Counted, Registered, Ref, Unref;
    match step {
      case Open(name, at) => RegisteredOpen(s, name, at);
      case Close(t, a) => RegisteredClose(s, t, a);
      case Unregister(t) => RegisteredUnregister(s, t);
      case DropSelf(t) => RegisteredDropSelf(s, t);
      case CleanUp =>
        NoReferences(s);
        RegisteredCleanUp(s);
      case _ => RegisteredSame(s, Apply(s, step));
    }
  }

  lemma StepKeepsInv(s: State, step: Step)
    requires Inv(s) && Enabled(s, step)
    ensures Defined(s, step) && Inv(Apply(s, step))
  {
    hide Counted, Registered;
    CountedSteps(s, step);
    RegisteredSteps(s, step);
  }

  lemma CloseClosed(s: State, t: ThreadId, a: Address)
    requires Enabled(s, Close(t, a))
    ensures a in s.sources && Defined(s, Close(t, a))
    ensures Apply(s, Close(t, a)) ==
      if s.sources[a].closed then s
      else s.(sources := s.sources[a := s.sources[a].(closed := true)], destroyers := s.destroyers[t := Closing(a)])
  {
  }

  /** A source that is being closed is registered until its name is freed. */
  lemma ClosingIsRegistered(s: State, t: ThreadId)
    requires Inv(s) && t in s.destroyers && s.destroyers[t].Closing?
    ensures s.destroyers[t].source in s.sources && s.sources[s.destroyers[t].source].name in s.registry
    ensures Enabled(s, Unregister(t))
  {
    assert DestroyerOk(s, s.destroyers[t]);
  }

  /** Letting go of a handle gives up one reference to its source, which is queued for the collector
      if it was the last. */
  lemma ReleaseStep(s: State, h: HandleId)
    requires Enabled(s, Release(h)) && Defined(s, Release(h))
    ensures var s', a := Apply(s, Release(h)), s.handles[h];
      && s'.handles == s.handles - {h} && s'.counters.count == s.counters.count[a := s.counters.count[a] - 1]
      && s'.counters.garbage == s.counters.garbage + (if s.counters.count[a] == 1 then [a] else [])
      && s'.sources == s.sources && s'.registry == s.registry && s'.destroyers == s.destroyers
  {
  }

  /** The collector cleans up the source queued first, with its counter, and no other. */
  lemma CleanUpStep(s: State)
    requires Enabled(s, CleanUp) && Defined(s, CleanUp)
    ensures var s', a := Apply(s, CleanUp), s.counters.garbage[0];
      && s'.sources == s.sources - {a} && s'.counters.count == s.counters.count - {a}
      && s.counters.garbage == [a] + s'.counters.garbage
      && s'.registry == s.registry && s'.handles == s.handles && s'.destroyers == s.destroyers
  {
  }

  ghost predicate IsRun(states: seq<State>, steps: seq<Step>) {
    && |states| == |steps| + 1
    && forall i :: 0 <= i < |steps| ==>
         Enabled(states[i], steps[i]) && (Defined(states[i], steps[i]) ==> states[i + 1] == Apply(states[i], steps[i]))
  }

  lemma {:induction false} RunKeepsInv(states: seq<State>, steps: seq<Step>, i: nat)
    requires IsRun(states, steps) && states[0] == INITIAL && i < |states|
    ensures Inv(states[i])
  {
    if i == 0 {
      InitialInv();
    } else {
      RunKeepsInv(states, steps, i - 1);
      StepKeepsInv(states[i - 1], steps[i - 1]);
    }
  }

  /** Over every interleaving: no step touches a source that was cleaned up; a registered source
      is alive and still has its own reference; that reference is dropped only while it is
      there, by the one thread that closed the source and removed it from the registry, whose
      removal never finds the name missing; and a source is cleaned up only when it is closed,
      unregistered, referenced by nobody and in no thread's hands. */
  lemma SourcesSafe(states: seq<State>, steps: seq<Step>, i: nat)
    requires IsRun(states, steps) && states[0] == INITIAL && i < |steps|
    ensures Defined(states[i], steps[i])
    ensures var s := states[i];
      && (forall n :: n in s.registry ==>
            s.registry[n] in s.sources && Live(s.counters, s.registry[n]) && s.sources[s.registry[n]].selfRef)
      && match steps[i]
         case Unregister(t) =>
           s.sources[s.destroyers[t].source].name in s.registry
           && s.registry[s.sources[s.destroyers[t].source].name] == s.destroyers[t].source
         case DropSelf(t) =>
           && s.sources[s.destroyers[t].source].selfRef && s.sources[s.destroyers[t].source].closed
           && !IsRegistered(s, s.destroyers[t].source)
           && forall u :: u in s.destroyers && s.destroyers[u].source == s.destroyers[t].source ==> u == t
         case CleanUp =>
           var a := s.counters.garbage[0];
           && s.sources[a].closed && !s.sources[a].selfRef && !IsRegistered(s, a)
           && !Holding(s.handles, a) && forall t :: t in s.destroyers ==> s.destroyers[t].source != a
         case _ => true
  {
    RunKeepsInv(states, steps, i);
    StepKeepsInv(states[i], steps[i]);
    var s := states[i];
    forall n | n in s.registry ensures Live(s.counters, s.registry[n]) {
      assert References(s.sources, s.handles)(s.registry[n]) > 0;
    }
    forall t | t in s.destroyers ensures DestroyerOk(s, s.destroyers[t]) {
    }
    if steps[i] == CleanUp {
      NoReferences(s);
      var a := s.counters.garbage[0];
      assert !s.sources[a].closed ==> IsRegistered(s, a);
    }
  }

  /** The registry and the sources of the server, updated in place by the regions above. */
  class SourceTable {
    var sources: map<Address, Source>
    var refCount: map<Address, nat>
    var garbageQueue: seq<Address>
    var registry: map<Name, Address>
    var handles: map<HandleId, Address>
    var destroyers: map<ThreadId, Destroying>

    ghost function View(): State
      reads this
    {
      State(sources, Counters(refCount, garbageQueue), registry, handles, destroyers)
    }

    constructor ()
      ensures View() == INITIAL && Inv(View())
    {
      sources, refCount, garbageQueue, registry, handles, destroyers := map[], map[], [], map[], map[], map[];
      InitialInv();
    }

    /** SVRD_Source_new, if malloc returns `at`: fails exactly when the name is taken. */
    method New(name: Name, at: Address) returns (ok: bool)
      requires Inv(View()) && at !in sources
      modifies this
      ensures Inv(View()) && View() == Apply(old(View()), Open(name, at)) && ok == (name !in old(registry))
      ensures ok ==>
        && sources == old(sources)[at := Source(name, false, true)] && registry == old(registry)[name := at]
        && refCount == old(refCount)[at := 1]
      ensures ok ==> handles == old(handles) && destroyers == old(destroyers) && garbageQueue == old(garbageQueue)
      ensures !ok ==> unchanged(this)
    {
      hide Inv;
      StepKeepsInv(View(), Open(name, at));
      ok := name !in registry;
      if ok {
        sources, refCount := sources[at := Source(name, false, true)], refCount[at := 1];
        registry := registry[name := at];
      }
    }

    /** SVRD_Source_getByName: the reference is kept as handle h. */
    method GetByName(h: HandleId, name: Name) returns (found: bool)
      requires Inv(View()) && h !in handles
      modifies this
      ensures Inv(View()) && Defined(old(View()), Lookup(h, name)) && View() == Apply(old(View()), Lookup(h, name))
      ensures found == (name in old(registry))
      ensures found ==>
        var a := old(registry)[name];
        && handles == old(handles)[h := a] && a in old(refCount) && refCount == old(refCount)[a := old(refCount)[a] + 1]
      ensures found ==>
        sources == old(sources) && registry == old(registry) && destroyers == old(destroyers)
      ensures !found ==> unchanged(this)
    {
      hide Inv;
      StepKeepsInv(View(), Lookup(h, name));
      found := name in registry;
      if found {
        var source := registry[name];
        refCount := refCount[source := refCount[source] + 1];
        handles := handles[h := source];
      }
    }

    method UnrefSource(a: Address)
      requires Live(Counters(refCount, garbageQueue), a)
      modifies this`refCount, this`garbageQueue
      ensures Counters(refCount, garbageQueue) == Unref(old(Counters(refCount, garbageQueue)), a)
    {
      refCount := refCount[a := refCount[a] - 1];
      if refCount[a] == 0 {
        garbageQueue := garbageQueue + [a];
      }
    }

    /** The first region of SVRD_Source_destroy: false when the source is closed already. */
    method CloseSource(t: ThreadId, a: Address) returns (first: bool)
      requires Inv(View()) && Enabled(View(), Close(t, a))
      modifies this
      ensures Inv(View()) && View() == Apply(old(View()), Close(t, a)) && first == !old(sources[a].closed)
      ensures first ==> Enabled(View(), Unregister(t)) && destroyers[t] == Closing(a) && sources[a].name in registry
      ensures sources == old(sources)[a := old(sources[a]).(closed := true)]
      ensures registry == old(registry) && handles == old(handles) && refCount == old(refCount)
    {
      hide Inv, Apply, Defined;
      ghost var s := View();
      CloseClosed(s, t, a);
      StepKeepsInv(s, Close(t, a));
      first := !sources[a].closed;
      if first {
        sources, destroyers := sources[a := sources[a].(closed := true)], destroyers[t := Closing(a)];
        assert View() == Apply(s, Close(t, a));
        ClosingIsRegistered(View(), t);
      }
    }

    /** The second region: frees the name. The source's branch for a name that is not there is
        never taken. */
    method RemoveFromRegistry(t: ThreadId)
      requires Inv(View()) && Enabled(View(), Unregister(t))
      modifies this
      ensures Inv(View()) && Defined(old(View()), Unregister(t)) && View() == Apply(old(View()), Unregister(t))
      ensures Enabled(View(), DropSelf(t)) && destroyers == old(destroyers)[t := Removed(old(destroyers[t].source))]
      ensures var a := old(destroyers[t].source);
        a in old(sources) && registry == old(registry) - {old(sources)[a].name}
      ensures sources == old(sources) && handles == old(handles) && refCount == old(refCount)
    {
      hide Inv;
      StepKeepsInv(View(), Unregister(t));
      ClosingIsRegistered(View(), t);
      var a := destroyers[t].source;
      if sources[a].name !in registry {
        assert false;
      }
      registry, destroyers := registry - {sources[a].name}, destroyers[t := Removed(a)];
    }

    /** The third region: gives up the source's own reference. */
    method DropSelfReference(t: ThreadId)
      requires Inv(View()) && Enabled(View(), DropSelf(t))
      modifies this
      ensures Inv(View()) && Defined(old(View()), DropSelf(t)) && View() == Apply(old(View()), DropSelf(t))
      ensures var a := old(destroyers[t].source);
        && a in old(sources) && sources == old(sources)[a := old(sources)[a].(selfRef := false)]
        && a in old(refCount) && old(refCount)[a] > 0 && refCount == old(refCount)[a := old(refCount)[a] - 1]
        && garbageQueue == old(garbageQueue) + if old(refCount)[a] == 1 then [a] else []
      ensures destroyers == old(destroyers) - {t} && registry == old(registry) && handles == old(handles)
    {
      hide Inv;
      StepKeepsInv(View(), DropSelf(t));
      var a := destroyers[t].source;
      UnrefSource(a);
      sources, destroyers := sources[a := sources[a].(selfRef := false)], destroyers - {t};
    }

    /** SVRD_Source_destroy when no other thread gets in between: nothing if the source is
        closed; otherwise it is closed, its name is free again, and its own reference is gone. */
    method Destroy(t: ThreadId, a: Address)
      requires Inv(View()) && Enabled(View(), Close(t, a))
      modifies this
      ensures Inv(View()) && handles == old(handles) && destroyers == old(destroyers)
      ensures old(sources[a].closed) ==> View() == old(View())
      ensures !old(sources[a].closed) ==>
        && sources == old(sources)[a := Source(old(sources[a].name), true, false)]
        && registry == old(registry) - {old(sources[a].name)}
    {
      hide Inv;
      var first := CloseSource(t, a);
      if first {
        RemoveFromRegistry(t);
        DropSelfReference(t);
        assert destroyers == old(destroyers);
      }
    }
  }
}
