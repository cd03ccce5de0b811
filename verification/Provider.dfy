/** server/client.c and server/messagehandlers.c: the sources a client provides. Its list of them
    holds plain pointers, without references, which are used by the requests of the client and
    when it is closed. A step is a region run under a lock, or by one thread on the list. */
module Providers {
  import opened Basics
  import Registry
  import RefCounts

  type Name = Registry.Name

  /** Clients and the threads that serve them have the same ids. */
  type ThreadId = Registry.ThreadId

  datatype Client = Client(closed: bool, sources: map<Name, Address>)

  datatype Activity =
    | Idle
    | Handling                            // a request, behind the test for a closed client
    | Marking(client: ThreadId, left: seq<Name>)  // closing a client: the names still to be looked up
    | Destroying(client: ThreadId, name: Name, source: Address, left: seq<Name>)  // with the pointer in hand

  datatype State = State(
    registry: Registry.State,
    ofClients: set<Address>,              // sources that have no type, being a client's
    clients: map<ThreadId, Client>,
    threads: map<ThreadId, Activity>)

  datatype Step =
    | Shared(step: Registry.Step)         // by requests and streams, the collector, or inside destroy
    | Request(c: ThreadId)
    | Create(c: ThreadId, name: Name, at: Address)    // Source.open
    | Use(c: ThreadId, name: Name)        // Source.setEncoding, setFrameProperties and data
    | Withdraw(c: ThreadId, h: Registry.HandleId)     // Source.close, up to the closed flag
    | Finish(c: ThreadId)
    | Mark(t: ThreadId, c: ThreadId, names: seq<Name>)  // markForClosing, up to its list of names
    | Next(t: ThreadId)                   // looks up the next of them
    | Destroy(t: ThreadId)                // destroys it, up to the closed flag
    | Done(t: ThreadId)

  function Initial(clients: set<ThreadId>, others: set<ThreadId>): State {
    State(Registry.INITIAL, {}, map c | c in clients :: Client(false, map[]), map t | t in clients + others :: Idle)
  }

  /** A thread that is not inside destroy. */
  ghost predicate Is(s: State, t: ThreadId, a: Activity) {
    t in s.threads && s.threads[t] == a && t !in s.registry.destroyers
  }

  ghost predicate Enabled(s: State, step: Step) {
    match step
    case Shared(step) =>
      Registry.Enabled(s.registry, step) && (step.Close? ==> step.source !in s.ofClients)
    case Request(c) => c in s.clients && Is(s, c, Idle) && !s.clients[c].closed
    case Create(c, _, at) => c in s.clients && Is(s, c, Handling) && at !in s.registry.sources
    case Use(c, name) => c in s.clients && Is(s, c, Handling) && name in s.clients[c].sources
    case Withdraw(c, h) =>
      && c in s.clients && Is(s, c, Handling) && h in s.registry.handles
      && var a := s.registry.handles[h];
         a in s.ofClients && a in s.registry.sources && s.registry.sources[a].name in s.clients[c].sources
    case Finish(c) => c in s.clients && Is(s, c, Handling)
    case Mark(t, c, names) =>
      && c in s.clients && (if t == c then Is(s, t, Handling) else t !in s.clients && Is(s, t, Idle))
      && NoDuplicates(names) && forall n :: n in names <==> n in s.clients[c].sources
    case Next(t) => t in s.threads && s.threads[t].Marking? && Is(s, t, s.threads[t]) && s.threads[t].left != []
    case Destroy(t) => t in s.threads && s.threads[t].Destroying? && Is(s, t, s.threads[t])
    case Done(t) => t in s.threads && s.threads[t].Marking? && Is(s, t, s.threads[t]) && s.threads[t].left == []
  }

  /** Every pointer used is to a source that is still allocated, and every name looked up is there. */
  ghost predicate Defined(s: State, step: Step)
    requires Enabled(s, step)
  {
    match step
    case Shared(step) => Registry.Defined(s.registry, step)
    case Use(c, name) => s.clients[c].sources[name] in s.registry.sources
    case Next(t) =>
      s.threads[t].client in s.clients && s.threads[t].left[0] in s.clients[s.threads[t].client].sources
    case Destroy(t) => s.threads[t].source in s.registry.sources
    case _ => true
  }

  function Apply(s: State, step: Step): State
    requires Enabled(s, step) && Defined(s, step)
  {
    match step
    case Shared(step) =>
      s.(registry := Registry.Apply(s.registry, step),
         ofClients := if step.Open? then s.ofClients - {step.at} else s.ofClients)
    case Request(c) => s.(threads := s.threads[c := Handling])
    case Create(c, name, at) =>
      if name in s.registry.registry then s
      else s.(registry := Registry.Apply(s.registry, Registry.Open(name, at)), ofClients := s.ofClients + {at},
              clients := s.clients[c := s.clients[c].(sources := s.clients[c].sources[name := at])])
    case Use(_, _) => s
    case Withdraw(c, h) =>
      var a := s.registry.handles[h];
      var name := s.registry.sources[a].name;
      s.(registry := Registry.Apply(s.registry, Registry.Close(c, a)),
         clients := s.clients[c := s.clients[c].(sources := s.clients[c].sources - {name})])
    case Finish(c) => s.(threads := s.threads[c := Idle])
    case Mark(t, c, names) =>
      if s.clients[c].closed then s
      else s.(clients := s.clients[c := s.clients[c].(closed := true)], threads := s.threads[t := Marking(c, names)])
    case Next(t) =>
      var c, name := s.threads[t].client, s.threads[t].left[0];
      s.(threads := s.threads[t := Destroying(c, name, s.clients[c].sources[name], s.threads[t].left[1..])])
    case Destroy(t) =>
      s.(registry := Registry.Apply(s.registry, Registry.Close(t, s.threads[t].source)),
         threads := s.threads[t := Marking(s.threads[t].client, s.threads[t].left)])
    case Done(t) => s.(threads := s.threads[t := Idle])
  }

  /** A client is closed by its own thread only. */
  predicate Own(step: Step) {
    step.Mark? ==> step.t == step.c
  }

  /** A source that some client provides under its name, and that was not closed. */
  ghost predicate Alive(s: State, a: Address, name: Name) {
    && a in s.registry.sources && !s.registry.sources[a].closed && s.registry.sources[a].name == name
    && a in s.ofClients
  }

  /** What is left to do of closing a client. */
  function Left(a: Activity): seq<Name> {
    if a.Marking? || a.Destroying? then a.left else []
  }

  /** The pointer under this name in the client's list may still be used. */
  ghost predicate Pending(s: State, c: ThreadId, name: Name) {
    && c in s.clients && c in s.threads && name in s.clients[c].sources
    && (!s.clients[c].closed || name in Left(s.threads[c]))
  }

  ghost predicate InHand(s: State, c: ThreadId, name: Name) {
    c in s.threads && s.threads[c].Destroying? && s.threads[c].name == name
  }

  ghost predicate Claims(s: State, c: ThreadId, name: Name) {
    Pending(s, c, name) || InHand(s, c, name)
  }

  /** The pointers under which sources may still be used. */
  ghost predicate PendingAlive(s: State) {
    forall c, n :: Pending(s, c, n) ==> Alive(s, s.clients[c].sources[n], n)
  }

  ghost predicate InHandAlive(s: State) {
    forall c, n :: InHand(s, c, n) ==> Alive(s, s.threads[c].source, n)
  }

  /** A thread closes only the client it serves, and that once. */
  ghost predicate ThreadOk(s: State, t: ThreadId)
    requires t in s.threads
  {
    match s.threads[t]
    case Idle => true
    case Handling => t in s.clients && !s.clients[t].closed
    case _ =>
      && s.threads[t].client == t && t in s.clients && s.clients[t].closed && NoDuplicates(s.threads[t].left)
      && (forall n :: n in s.threads[t].left ==> n in s.clients[t].sources)
      && (s.threads[t].Destroying? ==> s.threads[t].name !in s.threads[t].left)
  }

  ghost predicate PointersOk(s: State) {
    && PendingAlive(s) && InHandAlive(s)
    && (forall c, d, n :: Claims(s, c, n) && Claims(s, d, n) ==> c == d)
  }

  ghost predicate Inv(s: State) {
    Registry.Inv(s.registry) && ThreadsOk(s) && PointersOk(s)
  }

  /** A source that is not closed stays so, whatever happens in the registry, until it is closed. */
  lemma NotClosedStays(r: Registry.State, step: Registry.Step, a: Address)
    requires Registry.Inv(r) && Registry.Enabled(r, step) && Registry.Defined(r, step)
    requires a in r.sources && !r.sources[a].closed && (step.Close? ==> step.source != a)
    ensures var r' := Registry.Apply(r, step);
      a in r'.sources && !r'.sources[a].closed && r'.sources[a].name == r.sources[a].name
  {
    hide Registry.Inv, RefCounts.Unref, RefCounts.Ref, RefCounts.New, RefCounts.Collect;
    if step.CleanUp? {
      NotCollected(r, a);
    }
  }

  lemma NotCollected(r: Registry.State, a: Address)
    requires Registry.Inv(r) && r.counters.garbage != [] && a in r.sources && !r.sources[a].closed
    ensures a != r.counters.garbage[0]
  {
    Registry.NoReferences(r);
    hide Registry.Counted;
    assert Registry.IsRegistered(r, a);
  }

  /** The step on the registry that a step makes, if it makes one. */
  ghost predicate Makes(s: State, s': State, step: Registry.Step) {
    && Registry.Enabled(s.registry, step) && Registry.Defined(s.registry, step)
    && s'.registry == Registry.Apply(s.registry, step)
  }

  lemma StaysAlive(s: State, s': State, step: Registry.Step, a: Address, name: Name)
    requires Registry.Inv(s.registry) && Makes(s, s', step) && Alive(s, a, name) && a in s'.ofClients
    requires step.Close? ==> step.source != a
    ensures Alive(s', a, name)
  {
    hide Registry.Inv;
    NotClosedStays(s.registry, step, a);
  }

  ghost predicate ThreadsOk(s: State) {
    s.clients.Keys <= s.threads.Keys && forall t :: t in s.threads ==> ThreadOk(s, t)
  }

  ghost predicate NoMoreClaims(s: State, s': State) {
    forall c, n :: Claims(s', c, n) ==> Claims(s, c, n)
  }

  lemma FewerClaims(s: State, s': State)
    requires PointersOk(s) && NoMoreClaims(s, s') && PendingAlive(s') && InHandAlive(s')
    ensures PointersOk(s')
  {
  }

  /** Nothing changed but the registry. */
  lemma SameClients(s: State, s': State)
    requires s'.clients == s.clients && s'.threads == s.threads
    ensures NoMoreClaims(s, s') && (ThreadsOk(s) ==> ThreadsOk(s'))
    ensures forall c, n :: Pending(s', c, n) <==> Pending(s, c, n)
    ensures forall c, n :: InHand(s', c, n) <==> InHand(s, c, n)
  {
    assert forall t :: t in s.threads && ThreadOk(s, t) ==> ThreadOk(s', t);
    assert forall c, n :: Pending(s', c, n) <==> Pending(s, c, n);
    assert forall c, n :: InHand(s', c, n) <==> InHand(s, c, n);
    hide Pending, InHand;
  }

  lemma SharedKeepsInv(s: State, step: Registry.Step)
    requires Inv(s) && Enabled(s, Shared(step))
    ensures Defined(s, Shared(step)) && Inv(Apply(s, Shared(step)))
  {
    hide Registry.Inv, ThreadsOk, Claims, NoMoreClaims, Registry.Enabled, Registry.Defined, Registry.Apply;
    Registry.StepKeepsInv(s.registry, step);
    var s' := Apply(s, Shared(step));
    SameClients(s, s');
    forall c, n | Pending(s', c, n) ensures Alive(s', s'.clients[c].sources[n], n) {
      assert Pending(s, c, n);
      SharedStaysAlive(s, step, s.clients[c].sources[n], n);
    }
    forall c, n | InHand(s', c, n) ensures Alive(s', s'.threads[c].source, n) {
      assert InHand(s, c, n);
      SharedStaysAlive(s, step, s.threads[c].source, n);
    }
    FewerClaims(s, s');
  }

  lemma SharedStaysAlive(s: State, step: Registry.Step, a: Address, name: Name)
    requires Registry.Inv(s.registry) && Enabled(s, Shared(step)) && Defined(s, Shared(step)) && Alive(s, a, name)
    ensures Alive(Apply(s, Shared(step)), a, name)
  {
    hide Registry.Inv;
    StaysAlive(s, Apply(s, Shared(step)), step, a, name);
  }

  /** The steps of a thread that only change what it is about. */
  lemma ThreadKeepsInv(s: State, step: Step)
    requires Inv(s) && Enabled(s, step) && (step.Request? || step.Finish? || step.Done? || step.Use?)
    ensures Defined(s, step) && Inv(Apply(s, step))
  {
    hide Registry.Inv;
    if step.Use? {
      assert ThreadOk(s, step.c) && Pending(s, step.c, step.name);
    } else {
      var s', t := Apply(s, step), if step.Done? then step.t else step.c;
      assert ThreadOk(s, t);
      assert forall u :: u in s.threads && ThreadOk(s, u) ==> ThreadOk(s', u);
      assert forall c, n :: Pending(s', c, n) ==> Pending(s, c, n);
      assert forall c, n :: InHand(s', c, n) ==> InHand(s, c, n);
      FewerClaims(s, s');
    }
  }

  lemma MarkKeepsInv(s: State, c: ThreadId, names: seq<Name>)
    requires Inv(s) && Enabled(s, Mark(c, c, names))
    ensures Defined(s, Mark(c, c, names)) && Inv(Apply(s, Mark(c, c, names)))
  {
    hide Registry.Inv;
    var s' := Apply(s, Mark(c, c, names));
    assert ThreadOk(s, c);
    forall u | u in s'.threads ensures ThreadOk(s', u) {
      assert ThreadOk(s, u);
    }
    assert forall d, n :: Pending(s', d, n) ==> Pending(s, d, n);
    assert forall d, n :: InHand(s', d, n) ==> InHand(s, d, n);
    FewerClaims(s, s');
  }

  lemma NextKeepsInv(s: State, t: ThreadId)
    requires Inv(s) && Enabled(s, Next(t))
    ensures Defined(s, Next(t)) && Inv(Apply(s, Next(t)))
  {
    hide Registry.Inv;
    assert ThreadOk(s, t);
    var s', name := Apply(s, Next(t)), s.threads[t].left[0];
    assert Pending(s, t, name);
    forall u | u in s'.threads ensures ThreadOk(s', u) {
      assert ThreadOk(s, u);
    }
    assert forall d, n :: Pending(s', d, n) ==> Pending(s, d, n);
    assert forall d, n :: InHand(s', d, n) ==> InHand(s, d, n) || (d == t && n == name);
    FewerClaims(s, s');
  }

  /** Client c provides one more source. */
  ghost predicate Provides(s: State, s': State, c: ThreadId, name: Name, at: Address) {
    && c in s.clients && !s.clients[c].closed && s'.threads == s.threads && s'.ofClients == s.ofClients + {at}
    && s'.clients == s.clients[c := s.clients[c].(sources := s.clients[c].sources[name := at])]
  }

  lemma MoreClaims(s: State, s': State, c: ThreadId, name: Name, at: Address)
    requires ThreadsOk(s) && Provides(s, s', c, name, at) && (forall d :: !Claims(s, d, name))
    ensures ThreadsOk(s')
    ensures forall d, n :: Pending(s', d, n) ==>
      if n == name then d == c && s'.clients[d].sources[n] == at
      else Pending(s, d, n) && s'.clients[d].sources[n] == s.clients[d].sources[n]
    ensures forall d, n :: InHand(s', d, n) ==> InHand(s, d, n) && n != name
  {
    forall u | u in s'.threads ensures ThreadOk(s', u) {
      assert ThreadOk(s, u);
    }
    forall d, n | Pending(s', d, n)
      ensures if n == name then d == c && s'.clients[d].sources[n] == at
              else Pending(s, d, n) && s'.clients[d].sources[n] == s.clients[d].sources[n]
    {
      assert !Claims(s, d, name);
      assert d != c || n != name ==> Pending(s, d, n);
    }
    forall d, n | InHand(s', d, n) ensures InHand(s, d, n) && n != name {
      assert InHand(s, d, n) && !Claims(s, d, name);
    }
  }

  lemma MoreAlive(s: State, s': State, c: ThreadId, name: Name, at: Address)
    requires Registry.Inv(s.registry) && ThreadsOk(s) && PointersOk(s) && Provides(s, s', c, name, at)
    requires Makes(s, s', Registry.Open(name, at)) && name !in s.registry.registry
    requires forall d :: !Claims(s, d, name)
    ensures ThreadsOk(s') && PointersOk(s')
  {
    hide Registry.Inv, ThreadsOk, Pending, InHand;
    MoreClaims(s, s', c, name, at);
    assert Alive(s', at, name);
    AliveStay(s, s', name, at);
    hide Makes, Alive;
    assert forall d, n :: Claims(s', d, n) && n == name ==> d == c;
    assert forall d, n :: Claims(s', d, n) && n != name ==> Claims(s, d, n);
  }

  lemma AliveStay(s: State, s': State, name: Name, at: Address)
    requires Registry.Inv(s.registry) && Makes(s, s', Registry.Open(name, at)) && s'.ofClients == s.ofClients + {at}
    ensures forall a, n :: Alive(s, a, n) ==> Alive(s', a, n)
  {
    forall a, n | Alive(s, a, n) ensures Alive(s', a, n) {
      StaysAlive(s, s', Registry.Open(name, at), a, n);
    }
  }

  lemma CreateKeepsInv(s: State, c: ThreadId, name: Name, at: Address)
    requires Inv(s) && Enabled(s, Create(c, name, at))
    ensures Defined(s, Create(c, name, at)) && Inv(Apply(s, Create(c, name, at)))
  {
    hide Registry.Inv, PointersOk;
    var s' := Apply(s, Create(c, name, at));
    if name !in s.registry.registry {
      Registry.StepKeepsInv(s.registry, Registry.Open(name, at));
      assert ThreadOk(s, c);
      forall d ensures !Claims(s, d, name) {
        NameIsTaken(s, d, name);
      }
      MoreAlive(s, s', c, name, at);
    }
  }

  /** A name that is claimed is registered. */
  lemma NameIsTaken(s: State, c: ThreadId, name: Name)
    requires Inv(s)
    ensures Claims(s, c, name) ==> name in s.registry.registry
  {
    if Claims(s, c, name) {
      var a := if Pending(s, c, name) then s.clients[c].sources[name] else s.threads[c].source;
      assert Alive(s, a, name);
      assert Registry.IsRegistered(s.registry, a);
    }
  }

  /** A source was closed, and nobody claims its name any more. */
  lemma ClosedOne(s: State, s': State, t: ThreadId, a: Address, name: Name)
    requires Registry.Inv(s.registry) && PointersOk(s)
    requires Makes(s, s', Registry.Close(t, a)) && s'.ofClients == s.ofClients
    requires a in s.registry.sources && s.registry.sources[a].name == name
    requires forall d, n :: Pending(s', d, n) ==>
      n != name && Pending(s, d, n) && s'.clients[d].sources[n] == s.clients[d].sources[n]
    requires forall d, n :: InHand(s', d, n) ==>
      n != name && InHand(s, d, n) && s'.threads[d].source == s.threads[d].source
    ensures PointersOk(s')
  {
    hide Registry.Inv, Makes;
    forall d, n | Pending(s', d, n) ensures Alive(s', s'.clients[d].sources[n], n) {
      StaysAlive(s, s', Registry.Close(t, a), s.clients[d].sources[n], n);
    }
    forall d, n | InHand(s', d, n) ensures Alive(s', s'.threads[d].source, n) {
      StaysAlive(s, s', Registry.Close(t, a), s.threads[d].source, n);
    }
    FewerClaims(s, s');
  }

  lemma WithdrawKeepsInv(s: State, c: ThreadId, h: Registry.HandleId)
    requires Inv(s) && Enabled(s, Withdraw(c, h))
    ensures Defined(s, Withdraw(c, h)) && Inv(Apply(s, Withdraw(c, h)))
  {
    hide Registry.Inv, Registry.Apply;
    var s', a := Apply(s, Withdraw(c, h)), s.registry.handles[h];
    var name := s.registry.sources[a].name;
    Registry.StepKeepsInv(s.registry, Registry.Close(c, a));
    assert ThreadOk(s, c) && Pending(s, c, name) && Claims(s, c, name);
    forall u | u in s'.threads ensures ThreadOk(s', u) {
      assert ThreadOk(s, u);
    }
    forall d, n | Claims(s', d, n) ensures n != name {
      assert n == name ==> Claims(s, d, n);
    }
    assert forall d, n :: Pending(s', d, n) ==> Claims(s', d, n) && Pending(s, d, n);
    assert forall d, n :: InHand(s', d, n) ==> Claims(s', d, n) && InHand(s, d, n);
    ClosedOne(s, s', c, a, name);
  }

  lemma DestroyKeepsInv(s: State, t: ThreadId)
    requires Inv(s) && Enabled(s, Destroy(t))
    ensures Defined(s, Destroy(t)) && Inv(Apply(s, Destroy(t)))
    ensures !s.registry.sources[s.threads[t].source].closed
  {
    hide Registry.Inv, Registry.Apply;
    var a, name := s.threads[t].source, s.threads[t].name;
    assert ThreadOk(s, t) && InHand(s, t, name) && Claims(s, t, name);
    var s' := Apply(s, Destroy(t));
    Registry.StepKeepsInv(s.registry, Registry.Close(t, a));
    forall u | u in s'.threads ensures ThreadOk(s', u) {
      assert ThreadOk(s, u);
    }
    forall d, n | Claims(s', d, n) ensures n != name {
      assert n == name ==> Claims(s, d, n);
    }
    assert forall d, n :: Pending(s', d, n) ==> Claims(s', d, n) && Pending(s, d, n);
    assert forall d, n :: InHand(s', d, n) ==> Claims(s', d, n) && InHand(s, d, n);
    ClosedOne(s, s', t, a, name);
  }

  /** While clients are closed by their own threads only, every pointer used is to a source that
      is allocated. */
  lemma StepKeepsInv(s: State, step: Step)
    requires Inv(s) && Enabled(s, step) && Own(step)
    ensures Defined(s, step) && Inv(Apply(s, step))
  {
    hide Inv, Apply, Defined, Enabled;
    match step {
      case Shared(step) => SharedKeepsInv(s, step);
      case Create(c, name, at) => CreateKeepsInv(s, c, name, at);
      case Withdraw(c, h) => WithdrawKeepsInv(s, c, h);
      case Mark(t, c, names) => MarkKeepsInv(s, c, names);
      case Next(t) => NextKeepsInv(s, t);
      case Destroy(t) => DestroyKeepsInv(s, t);
      case _ => ThreadKeepsInv(s, step);
    }
  }

  /** A new source is registered and in the client's list, unless the name is taken. */
  lemma CreateStep(s: State, c: ThreadId, name: Name, at: Address)
    requires Enabled(s, Create(c, name, at))
    ensures var s' := Apply(s, Create(c, name, at));
      if name in s.registry.registry then s' == s
      else
        && at in s'.registry.sources && s'.registry.sources[at] == Registry.Source(name, false, true)
        && s'.registry.registry == s.registry.registry[name := at] && s'.ofClients == s.ofClients + {at}
        && s'.clients == s.clients[c := Client(s.clients[c].closed, s.clients[c].sources[name := at])]
        && s'.threads == s.threads
  {
  }

  /** A source that its client closes is off the list and closed. */
  lemma WithdrawStep(s: State, c: ThreadId, h: Registry.HandleId)
    requires Enabled(s, Withdraw(c, h))
    ensures var s', a := Apply(s, Withdraw(c, h)), s.registry.handles[h];
      && a in s.registry.sources && a in s'.registry.sources && s'.registry.sources[a].closed
      && (!s.registry.sources[a].closed ==> s'.registry.destroyers == s.registry.destroyers[c := Registry.Closing(a)])
      && s'.clients == s.clients[c := Client(s.clients[c].closed, s.clients[c].sources - {s.registry.sources[a].name})]
      && s'.threads == s.threads && s'.ofClients == s.ofClients && s'.registry.registry == s.registry.registry
  {
  }

  /** Closing a client: it is closed once, the names in its list are gone through in turn, and each
      source found is destroyed. */
  lemma ClosingSteps(s: State, t: ThreadId, c: ThreadId, names: seq<Name>)
    ensures Enabled(s, Mark(t, c, names)) && !s.clients[c].closed ==>
      var s' := Apply(s, Mark(t, c, names));
      && s'.clients == s.clients[c := Client(true, s.clients[c].sources)]
      && s'.threads == s.threads[t := Marking(c, names)] && s'.registry == s.registry
    ensures Enabled(s, Next(t)) && Defined(s, Next(t)) ==>
      var s', left := Apply(s, Next(t)), s.threads[t].left;
      && s'.threads[t].Destroying? && left == [s'.threads[t].name] + s'.threads[t].left
      && s'.threads[t].client == s.threads[t].client
      && s'.threads[t].source == s.clients[s.threads[t].client].sources[s'.threads[t].name]
      && s' == s.(threads := s.threads[t := s'.threads[t]])
    ensures Enabled(s, Destroy(t)) && Defined(s, Destroy(t)) ==>
      var s', a := Apply(s, Destroy(t)), s.threads[t].source;
      && a in s'.registry.sources && s'.registry.sources[a].closed
      && (!s.registry.sources[a].closed ==> s'.registry.destroyers == s.registry.destroyers[t := Registry.Closing(a)])
      && s'.threads == s.threads[t := Marking(s.threads[t].client, s.threads[t].left)] && s'.clients == s.clients
  {
  }

  ghost predicate IsRun(states: seq<State>, steps: seq<Step>) {
    && |states| == |steps| + 1
    && forall i :: 0 <= i < |steps| ==>
         Enabled(states[i], steps[i]) && (Defined(states[i], steps[i]) ==> states[i + 1] == Apply(states[i], steps[i]))
  }

  lemma InitialInv(clients: set<ThreadId>, others: set<ThreadId>)
    ensures Inv(Initial(clients, others))
  {
    Registry.InitialInv();
    hide Registry.Inv;
  }

  lemma {:induction false} RunKeepsInv(states: seq<State>, steps: seq<Step>, clients: set<ThreadId>,
                                       others: set<ThreadId>, i: nat)
    requires IsRun(states, steps) && states[0] == Initial(clients, others) && i < |states|
    requires forall step :: step in steps ==> Own(step)
    ensures Inv(states[i])
  {
    hide Inv, Enabled, Defined, Apply;
    if i == 0 {
      InitialInv(clients, others);
    } else {
      RunKeepsInv(states, steps, clients, others, i - 1);
      StepKeepsInv(states[i - 1], steps[i - 1]);
    }
  }

  /** Over every interleaving in which clients are closed by their own threads only: a pointer in a
      client's list is used only while its source is allocated, and each source destroyed when
      its client is closed is destroyed for the first time. */
  lemma PointersValid(states: seq<State>, steps: seq<Step>, clients: set<ThreadId>, others: set<ThreadId>, i: nat)
    requires IsRun(states, steps) && states[0] == Initial(clients, others) && i < |steps|
    requires forall step :: step in steps ==> Own(step)
    ensures Defined(states[i], steps[i])
    ensures steps[i].Destroy? ==>
      !states[i].registry.sources[states[i].threads[steps[i].t].source].closed
  {
    hide Inv, Apply, Defined;
    RunKeepsInv(states, steps, clients, others, i);
    StepKeepsInv(states[i], steps[i]);
    if steps[i].Destroy? {
      DestroyKeepsInv(states[i], steps[i].t);
    }
  }

  /** Some client is yet to close the source. */
  ghost predicate Claimed(s: State, a: Address, name: Name) {
    exists c :: Holds(s, c, a, name)
  }

  ghost predicate Holds(s: State, c: ThreadId, a: Address, name: Name) {
    || (Pending(s, c, name) && s.clients[c].sources[name] == a)
    || (InHand(s, c, name) && s.threads[c].source == a)
  }

  /** No source of a client is forgotten. */
  ghost predicate NoneForgotten(s: State) {
    forall a, n :: Alive(s, a, n) ==> Claimed(s, a, n)
  }

  /** What is alive after a step was so before, with the same name, unless the step created it. */
  lemma NothingRevives(s: State, step: Step, a: Address, name: Name)
    requires Inv(s) && Enabled(s, step) && Defined(s, step) && Alive(Apply(s, step), a, name)
    ensures Alive(s, a, name) ||
      (step.Create? && a == step.at && name == step.name && step.name !in s.registry.registry)
    ensures step.Destroy? ==> a != s.threads[step.t].source
    ensures step.Withdraw? ==> a != s.registry.handles[step.h]
  {
    hide Inv, RefCounts.Unref, RefCounts.Ref, RefCounts.New, RefCounts.Collect;
  }

  /** The request has just looked the source up. */
  ghost predicate LookedUp(s: State, step: Step)
    requires Enabled(s, step)
  {
    step.Withdraw? ==> Registry.IsRegistered(s.registry, s.registry.handles[step.h])
  }

  /** Steps that change a list. */
  lemma ClaimStaysCreated(s: State, step: Step, c: ThreadId, a: Address, name: Name)
    requires Registry.Inv(s.registry) && Enabled(s, step) && step.Create?
    requires Holds(s, c, a, name) && Alive(s, a, name)
    ensures Holds(Apply(s, step), c, a, name)
  {
    hide Registry.Apply, Registry.Enabled, Registry.Defined, Registry.Counted;
    assert Registry.IsRegistered(s.registry, a);
  }

  lemma ClaimStaysWithdrawn(s: State, step: Step, c: ThreadId, a: Address, name: Name)
    requires Registry.Inv(s.registry) && ThreadsOk(s) && Enabled(s, step) && LookedUp(s, step) && step.Withdraw?
    requires Holds(s, c, a, name) && Alive(s, a, name) && a != s.registry.handles[step.h]
    ensures Holds(Apply(s, step), c, a, name)
  {
    hide Registry.Apply, Registry.Enabled, Registry.Defined, Registry.Counted;
    assert Registry.IsRegistered(s.registry, a);
    assert ThreadOk(s, step.c);
  }

  /** Steps of closing a client. */
  lemma ClaimStaysMarked(s: State, step: Step, c: ThreadId, a: Address, name: Name)
    requires ThreadsOk(s) && Enabled(s, step) && Defined(s, step) && Own(step)
    requires (step.Mark? || step.Next? || step.Destroy? || step.Done?) && Holds(s, c, a, name)
    requires step.Destroy? ==> a != s.threads[step.t].source
    ensures Holds(Apply(s, step), c, a, name)
  {
    hide Registry.Inv, Registry.Apply, Registry.Enabled, Registry.Defined;
    assert ThreadOk(s, step.t);
  }

  lemma ClaimStaysElse(s: State, step: Step, c: ThreadId, a: Address, name: Name)
    requires ThreadsOk(s) && Enabled(s, step) && Defined(s, step) && Holds(s, c, a, name)
    requires step.Shared? || step.Request? || step.Use? || step.Finish?
    ensures Holds(Apply(s, step), c, a, name)
  {
    hide Registry.Inv, Registry.Apply, Registry.Enabled, Registry.Defined;
  }

  lemma ClaimStays(s: State, step: Step, c: ThreadId, a: Address, name: Name)
    requires Inv(s) && Enabled(s, step) && Defined(s, step) && Own(step) && LookedUp(s, step)
    requires Holds(s, c, a, name) && Alive(s, a, name) && Alive(Apply(s, step), a, name)
    ensures Holds(Apply(s, step), c, a, name)
  {
    hide Holds, Alive, Apply, Enabled, Defined, ThreadsOk, PointersOk, Registry.Inv;
    NothingRevives(s, step, a, name);
    if step.Create? {
      ClaimStaysCreated(s, step, c, a, name);
    } else if step.Withdraw? {
      ClaimStaysWithdrawn(s, step, c, a, name);
    } else if step.Mark? || step.Next? || step.Destroy? || step.Done? {
      ClaimStaysMarked(s, step, c, a, name);
    } else {
      ClaimStaysElse(s, step, c, a, name);
    }
  }

  lemma StepForgetsNone(s: State, step: Step)
    requires Inv(s) && Enabled(s, step) && Own(step) && LookedUp(s, step) && NoneForgotten(s)
    ensures Defined(s, step) && NoneForgotten(Apply(s, step))
  {
    StepKeepsInv(s, step);
    hide Inv, Holds, Apply, Alive, Own, LookedUp;
    var s' := Apply(s, step);
    forall a, n | Alive(s', a, n) ensures Claimed(s', a, n) {
      NothingRevives(s, step, a, n);
      if Alive(s, a, n) {
        var c :| Holds(s, c, a, n);
        ClaimStays(s, step, c, a, n);
      } else {
        CreatedIsHeld(s, step);
        assert Holds(s', step.c, a, n);
      }
    }
  }

  lemma CreatedIsHeld(s: State, step: Step)
    requires Inv(s) && Enabled(s, step) && step.Create? && step.name !in s.registry.registry
    ensures Holds(Apply(s, step), step.c, step.at, step.name)
  {
    hide Registry.Inv, Registry.Apply;
    assert ThreadOk(s, step.c);
  }

  lemma {:induction false} RunForgetsNone(states: seq<State>, steps: seq<Step>, clients: set<ThreadId>,
                                          others: set<ThreadId>, i: nat)
    requires IsRun(states, steps) && states[0] == Initial(clients, others) && i < |states|
    requires forall j :: 0 <= j < |steps| ==>
      Enabled(states[j], steps[j]) && Own(steps[j]) && LookedUp(states[j], steps[j])
    ensures NoneForgotten(states[i])
  {
    hide Inv, Enabled, Defined, Apply, LookedUp;
    if i > 0 {
      var last: nat := i - 1;
      RunForgetsNone(states, steps, clients, others, last);
      RunKeepsInv(states, steps, clients, others, last);
      StepForgetsNone(states[last], steps[last]);
    }
  }

  /** A client that was closed, by its own thread, has left none of its sources open: each one that
      is still open is in the list of a client that is yet to close it. */
  lemma ClosedClientsLeaveNothing(states: seq<State>, steps: seq<Step>, clients: set<ThreadId>, others: set<ThreadId>,
                                  i: nat, a: Address) returns (owner: ThreadId)
    requires IsRun(states, steps) && states[0] == Initial(clients, others) && i < |states|
    requires forall j :: 0 <= j < |steps| ==>
      Enabled(states[j], steps[j]) && Own(steps[j]) && LookedUp(states[j], steps[j])
    requires var s := states[i]; a in s.ofClients && a in s.registry.sources && !s.registry.sources[a].closed
    ensures var s := states[i];
      && owner in s.clients && owner in s.threads && (s.clients[owner].closed ==> s.threads[owner] != Idle)
      && Holds(s, owner, a, s.registry.sources[a].name)
  {
    var s := states[i];
    RunForgetsNone(states, steps, clients, others, i);
    RunKeepsInv(states, steps, clients, others, i);
    hide IsRun, Enabled, Apply, Registry.Inv;
    assert Alive(s, a, s.registry.sources[a].name);
    owner :| Holds(s, owner, a, s.registry.sources[a].name);
    assert owner in s.threads ==> ThreadOk(s, owner);
  }

  /** A run in which thread 0 kicks client 1, which provides a source, while the client's own thread
      is about to close that. */
  function KickStep(i: nat): Step {
    match i
    case 0 => Request(1)
    case 1 => Create(1, "camera", 7)
    case 2 => Shared(Registry.Lookup(0, "camera"))
    case 3 => Mark(0, 1, ["camera"])
    case 4 => Next(0)
    case 5 => Withdraw(1, 0)
    case 6 => Shared(Registry.Unregister(1))
    case 7 => Shared(Registry.DropSelf(1))
    case 8 => Shared(Registry.Release(0))
    case 9 => Shared(Registry.CleanUp)
    case _ => Destroy(0)
  }

  function KickRegistry(i: nat): Registry.State {
    Registry.State(
      if i < 2 || i >= 10 then map[] else map[7 := Registry.Source("camera", i >= 6, i < 8)],
      RefCounts.Counters(
        if i < 2 || i >= 10 then map[] else map[7 := if i == 2 || i == 8 then 1 else if i == 9 then 0 else 2],
        if i == 9 then [7] else []),
      if i < 2 || i >= 7 then map[] else map["camera" := 7],
      if i < 3 || i >= 9 then map[] else map[0 := 7],
      if i == 6 then map[1 := Registry.Closing(7)] else if i == 7 then map[1 := Registry.Removed(7)] else map[])
  }

  function KickState(i: nat): State {
    State(
      KickRegistry(i), if i < 2 then {} else {7},
      map[1 := Client(i >= 4, if i < 2 || i >= 6 then map[] else map["camera" := 7])],
      map[0 := if i < 4 then Idle else if i == 4 then Marking(1, ["camera"]) else Destroying(1, "camera", 7, []),
          1 := if i == 0 then Idle else Handling])
  }

  /** What steps 1, 2 and 5 to 9 do to the registry. */
  function KickRegistryStep(i: nat): Registry.Step {
    match i
    case 1 => Registry.Open("camera", 7)
    case 2 => Registry.Lookup(0, "camera")
    case 5 => Registry.Close(1, 7)
    case 6 => Registry.Unregister(1)
    case 7 => Registry.DropSelf(1)
    case 8 => Registry.Release(0)
    case _ => Registry.CleanUp
  }

  ghost predicate KickRegistryOk(i: nat) {
    && Registry.Enabled(KickRegistry(i), KickRegistryStep(i)) && Registry.Defined(KickRegistry(i), KickRegistryStep(i))
    && Registry.Apply(KickRegistry(i), KickRegistryStep(i)) == KickRegistry(i + 1)
  }

  lemma KickOpens()
    ensures KickRegistryOk(1) && KickRegistryOk(2) && KickRegistryOk(5)
  {
  }

  lemma KickCloses()
    ensures KickRegistryOk(6) && KickRegistryOk(7)
  {
  }

  lemma KickCleansUp()
    ensures KickRegistryOk(8) && KickRegistryOk(9)
  {
    assert [7][1..] == [];
  }

  ghost predicate KickStepOk(i: nat) {
    && Enabled(KickState(i), KickStep(i)) && Defined(KickState(i), KickStep(i))
    && Apply(KickState(i), KickStep(i)) == KickState(i + 1)
  }

  lemma KickBegins(i: nat)
    requires i < 3
    ensures KickStepOk(i)
  {
    hide Registry.Enabled, Registry.Defined, Registry.Apply;
    KickOpens();
  }

  lemma KickMarks(i: nat)
    requires 3 <= i < 5
    ensures KickStepOk(i)
  {
    hide Registry.Enabled, Registry.Defined, Registry.Apply;
    assert ["camera"][1..] == [];
  }

  lemma KickEnds(i: nat)
    requires 5 <= i < 10
    ensures KickStepOk(i)
  {
    hide Registry.Enabled, Registry.Defined, Registry.Apply;
    KickOpens();
    KickCloses();
    KickCleansUp();
  }

  /** A kick from another thread breaks this: the pointer it took from the list outlives the source,
      when the client's own thread takes the source off the list and closes it meanwhile. */
  lemma KickFromOutsideBreaks() returns (states: seq<State>, steps: seq<Step>)
    ensures IsRun(states, steps) && states[0] == Initial({1}, {0}) && |steps| == 10
    ensures forall i :: 0 <= i < |steps| && i != 3 ==> Own(steps[i])
    ensures Enabled(states[10], Destroy(0)) && !Defined(states[10], Destroy(0))
  {
    hide Registry.Enabled, Registry.Defined, Registry.Apply, Apply;
    states, steps := seq(11, i requires 0 <= i => KickState(i)), seq(10, i requires 0 <= i => KickStep(i));
    forall i | 0 <= i < 10
      ensures Enabled(states[i], steps[i])
      ensures Defined(states[i], steps[i]) && states[i + 1] == Apply(states[i], steps[i])
    {
      if i < 3 { KickBegins(i); } else if i < 5 { KickMarks(i); } else { KickEnds(i); }
    }
    KickInitial();
  }

  lemma KickInitial()
    ensures KickState(0) == Initial({1}, {0})
  {
    assert KickState(0).threads == Initial({1}, {0}).threads;
  }
}
