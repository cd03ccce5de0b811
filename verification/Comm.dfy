/** lib/comm.c: many client threads, one receive thread and a server exchange requests and
    replies over one connection. A step is a region run under a lock, or one message moving. */
module Comm {
  import opened Basics
  import opened ResponseSets

  const MAX_REQUEST_ID := 0xffff

  /** A request, or the reply to it: the id it carries and which request it belongs to. The tag
      is not on the wire; it is what the theorem is about. */
  datatype Message = Message(requestId: nat, tag: nat)

  /** Between getRequestId and the send a thread is about to send, after it it waits. */
  datatype Thread = Idle | ToSend(id: nat, tag: nat) | Waiting(id: nat, tag: nat)

  type ThreadId = nat

  datatype State = State(
    slots: Slots<nat>,                 // a response is the tag of the reply
    threads: map<ThreadId, Thread>,
    toServer: seq<Message>,
    atServer: seq<Message>,            // received, not yet answered
    dropped: seq<Message>,             // received, never to be answered
    toClient: seq<Message>,
    nextTag: nat)

  datatype Step =
    | Reserve(t: ThreadId)
    | Send(t: ThreadId)
    | ServerReceive
    | ServerReply(i: nat)   // in any order, and at most once each
    | ServerDrop(i: nat)
    | Receive
    | GetResponse(t: ThreadId)

  function Initial(threads: set<ThreadId>): State {
    State(Slots(seq(RESPONSE_SET_GROW, _ => false), seq(RESPONSE_SET_GROW, _ => None), 0),
          map t | t in threads :: Idle, [], [], [], [], 1)
  }

  /** The messages that were sent and whose reply has not been stored. */
  function Open(s: State): multiset<Message> {
    multiset(s.toServer) + multiset(s.atServer) + multiset(s.dropped) + multiset(s.toClient)
  }

  ghost predicate Enabled(s: State, step: Step) {
    match step
    case Reserve(t) =>
      t in s.threads && s.threads[t] == Idle && s.slots.next < |s.slots.pending|
      && ResponseSets.Reserve(s.slots, MAX_REQUEST_ID).Some? && |s.slots.response| == |s.slots.pending|
    case Send(t) => t in s.threads && s.threads[t].ToSend?
    case ServerReceive => s.toServer != []
    case ServerReply(i) => i < |s.atServer|
    case ServerDrop(i) => i < |s.atServer|
    case Receive => s.toClient != []
    case GetResponse(t) =>
      t in s.threads && s.threads[t].Waiting?
      && s.threads[t].id < |s.slots.response| && s.threads[t].id < |s.slots.pending|
      && s.slots.response[s.threads[t].id].Some?
  }

  function Remove<T>(s: seq<T>, i: nat): seq<T>
    requires i < |s|
  {
    s[..i] + s[i + 1..]
  }

  /** The receive thread's branch for a message with a request id: setResponse(id - 1). An id
      outside the arrays would be an out-of-bounds access. */
  function SetResponse(slots: Slots<nat>, m: Message): Option<Slots<nat>> {
    if m.requestId == 0 then Some(slots)
    else if m.requestId - 1 >= |slots.pending| || m.requestId - 1 >= |slots.response| then None
    else if slots.pending[m.requestId - 1] then Some(slots.(response := slots.response[m.requestId - 1 := Some(m.tag)]))
    else Some(slots)
  }

  /** None: the step would access a response slot outside the arrays. */
  function Apply(s: State, step: Step): Option<State>
    requires Enabled(s, step)
  {
    match step
    case Reserve(t) =>
      var id := ResponseSets.Reserve(s.slots, MAX_REQUEST_ID).value;
      Some(s.(slots := Reserved(s.slots, id), threads := s.threads[t := ToSend(id, s.nextTag)],
              nextTag := s.nextTag + 1))
    case Send(t) =>
      var th := s.threads[t];
      Some(s.(threads := s.threads[t := Waiting(th.id, th.tag)], toServer := s.toServer + [Message(th.id + 1, th.tag)]))
    case ServerReceive =>
      Some(s.(toServer := s.toServer[1..], atServer := s.atServer + [s.toServer[0]]))
    case ServerReply(i) =>
      Some(s.(atServer := Remove(s.atServer, i), toClient := s.toClient + [s.atServer[i]]))
    case ServerDrop(i) =>
      Some(s.(atServer := Remove(s.atServer, i), dropped := s.dropped + [s.atServer[i]]))
    case Receive =>
      var slots := SetResponse(s.slots, s.toClient[0]);
      if slots == None then None else Some(s.(slots := slots.value, toClient := s.toClient[1..]))
    case GetResponse(t) =>
      Some(s.(slots := s.slots.(pending := s.slots.pending[s.threads[t].id := false]), threads := s.threads[t := Idle]))
  }

  /** The reply a GetResponse step returns. */
  function Returned(s: State, t: ThreadId): nat
    requires Enabled(s, GetResponse(t))
  {
    s.slots.response[s.threads[t].id].value
  }

  ghost predicate Holds(s: State, t: ThreadId, id: nat) {
    t in s.threads && s.threads[t] != Idle && s.threads[t].id == id
  }

  ghost predicate Inv(s: State) {
    && WellFormed(s.slots, MAX_REQUEST_ID)
    && OpenOk(s)
    && ThreadsOk(s)
  }

  /** Every open message carries a reserved id, and no two carry the same. */
  ghost predicate OpenOk(s: State) {
    && (forall m :: m in Open(s) ==> 1 <= m.requestId <= |s.slots.pending| && s.slots.pending[m.requestId - 1])
    && (forall m, m' :: m in Open(s) && m' in Open(s) && m.requestId == m'.requestId ==> m == m')
    && (forall m :: m in Open(s) ==> Open(s)[m] == 1)
  }

  /** A reserved id belongs to one thread; before the send nothing carries it; after it, the
      request or its reply is open, or the reply is stored, never both, and it is the thread's own. */
  ghost predicate ThreadsOk(s: State) {
    && (forall t :: t in s.threads && s.threads[t] != Idle ==> ThreadOk(s, s.threads[t]))
    && (forall t, u, id :: Holds(s, t, id) && Holds(s, u, id) ==> t == u)
  }

  ghost predicate ThreadOk(s: State, th: Thread)
    requires th != Idle
  {
    && th.id < |s.slots.pending| && th.id < |s.slots.response| && s.slots.pending[th.id]
    && match th
       case ToSend(id, tag) => s.slots.response[id] == None && forall m :: m in Open(s) ==> m.requestId != id + 1
       case Waiting(id, tag) =>
         if s.slots.response[id] == None then Message(id + 1, tag) in Open(s)
         else s.slots.response[id] == Some(tag) && forall m :: m in Open(s) ==> m.requestId != id + 1
  }

  lemma InitialInv(threads: set<ThreadId>)
    ensures Inv(Initial(threads))
  {
  }

  lemma TakeOne<T>(s: seq<T>, i: nat)
    requires i < |s|
    ensures multiset(s) == multiset(Remove(s, i)) + multiset{s[i]}
    ensures i == 0 ==> Remove(s, i) == s[1..]
  {
    assert s == s[..i] + [s[i]] + s[i + 1..];
  }

  /** Moving a message between queues changes nothing the invariant speaks of. */
  lemma MoveKeepsInv(s: State, s': State)
    requires Inv(s) && Moves(s, s')
    ensures Inv(s')
  {
    forall t | t in s'.threads && s'.threads[t] != Idle ensures ThreadOk(s', s'.threads[t]) {
      assert ThreadOk(s, s.threads[t]);
    }
    forall t, u, id | Holds(s', t, id) && Holds(s', u, id) ensures t == u {
      assert Holds(s, t, id) && Holds(s, u, id);
    }
  }

  lemma MoveOne<T>(from: seq<T>, i: nat, to: seq<T>)
    requires i < |from|
    ensures multiset(Remove(from, i)) + multiset(to + [from[i]]) == multiset(from) + multiset(to)
    ensures i == 0 ==> Remove(from, i) == from[1..]
  {
    TakeOne(from, i);
  }

  /** Only messages move between queues. */
  ghost predicate Moves(s: State, s': State) {
    Open(s') == Open(s) && s'.slots == s.slots && s'.threads == s.threads
  }

  lemma ServerReceives(s: State)
    requires s.toServer != []
    ensures Apply(s, ServerReceive).Some? && Moves(s, Apply(s, ServerReceive).value)
  {
    MoveOne(s.toServer, 0, s.atServer);
  }

  lemma ServerReplies(s: State, i: nat)
    requires i < |s.atServer|
    ensures Apply(s, ServerReply(i)).Some? && Moves(s, Apply(s, ServerReply(i)).value)
  {
    var s' := Apply(s, ServerReply(i)).value;
    MoveOne(s.atServer, i, s.toClient);
    Reordered(multiset(s.toServer), multiset(s.atServer), multiset(s.dropped), multiset(s.toClient));
    Reordered(multiset(s.toServer), multiset(s'.atServer), multiset(s.dropped), multiset(s'.toClient));
  }

  lemma ServerDrops(s: State, i: nat)
    requires i < |s.atServer|
    ensures Apply(s, ServerDrop(i)).Some? && Moves(s, Apply(s, ServerDrop(i)).value)
  {
    var s' := Apply(s, ServerDrop(i)).value;
    MoveOne(s.atServer, i, s.dropped);
    Grouped(multiset(s.toServer), multiset(s.atServer), multiset(s.dropped), multiset(s.toClient));
    Grouped(multiset(s.toServer), multiset(s'.atServer), multiset(s'.dropped), multiset(s.toClient));
  }

  lemma Reordered<T>(a: multiset<T>, b: multiset<T>, c: multiset<T>, d: multiset<T>)
    ensures a + b + c + d == a + c + (b + d)
  {
  }

  lemma Grouped<T>(a: multiset<T>, b: multiset<T>, c: multiset<T>, d: multiset<T>)
    ensures a + b + c + d == a + (b + c) + d
  {
  }

  /** Reserving a slot that is free changes nothing for the others. */
  ghost predicate OnlyReserves(slots: Slots<nat>, slots': Slots<nat>, id: nat) {
    && |slots.pending| == |slots.response| && |slots'.pending| == |slots'.response|
    && |slots.pending| <= |slots'.pending|
    && (id < |slots.pending| ==> !slots.pending[id]) && id < |slots'.pending|
    && slots'.pending[id] && slots'.response[id] == None
    && (forall i :: 0 <= i < |slots.pending| && i != id ==>
          slots'.pending[i] == slots.pending[i] && slots'.response[i] == slots.response[i])
  }

  lemma ReserveKeepsOpen(s: State, s': State, id: nat)
    requires OpenOk(s) && OnlyReserves(s.slots, s'.slots, id) && Open(s') == Open(s)
    ensures OpenOk(s') && forall m :: m in Open(s) ==> m.requestId != id + 1
  {
    hide Open;
  }

  lemma ReserveKeepsThread(s: State, s': State, id: nat, th: Thread)
    requires th != Idle && ThreadOk(s, th) && OnlyReserves(s.slots, s'.slots, id) && Open(s') == Open(s)
    ensures ThreadOk(s', th) && th.id != id
  {
    hide Open;
  }

  lemma ReserveKeepsInv(s: State, t: ThreadId)
    requires Inv(s) && Enabled(s, Reserve(t))
    ensures Apply(s, Reserve(t)).Some? && Inv(Apply(s, Reserve(t)).value)
    ensures var id := ResponseSets.Reserve(s.slots, MAX_REQUEST_ID).value;
      && (forall m :: m in Open(s) ==> m.requestId != id + 1)
      && (forall u :: !Holds(s, u, id))
  {
    var s' := Apply(s, Reserve(t)).value;
    var id := ResponseSets.Reserve(s.slots, MAX_REQUEST_ID).value;
    ReserveSound(s.slots, MAX_REQUEST_ID);
    assert Open(s') == Open(s);
    assert OnlyReserves(s.slots, s'.slots, id);
    hide Open, OpenOk, ThreadOk, OnlyReserves, Reserved, ResponseSets.Reserve, WellFormed;
    ReserveKeepsOpen(s, s', id);
    NewThreadOk(s', id, s.nextTag);
    forall u | u in s.threads && s.threads[u] != Idle ensures ThreadOk(s', s.threads[u]) && s.threads[u].id != id {
      ReserveKeepsThread(s, s', id, s.threads[u]);
    }
    forall u, v, i | Holds(s', u, i) && Holds(s', v, i) ensures u == v {
      if u != t && v != t {
        assert Holds(s, u, i) && Holds(s, v, i);
      }
    }
  }

  lemma NewThreadOk(s: State, id: nat, tag: nat)
    requires id < |s.slots.pending| && id < |s.slots.response| && s.slots.pending[id] && s.slots.response[id] == None
    requires forall m :: m in Open(s) ==> m.requestId != id + 1
    ensures ThreadOk(s, ToSend(id, tag))
  {
  }

  lemma SendOpens(s: State, t: ThreadId)
    requires Enabled(s, Send(t))
    ensures Open(Apply(s, Send(t)).value) == Open(s) + multiset{Message(s.threads[t].id + 1, s.threads[t].tag)}
  {
  }

  lemma MoreOpen(s: State, s': State, th: Thread, other: Thread)
    requires OpenOk(s) && th.ToSend? && ThreadOk(s, th) && s'.slots == s.slots
    requires Open(s') == Open(s) + multiset{Message(th.id + 1, th.tag)}
    ensures OpenOk(s') && ThreadOk(s', Waiting(th.id, th.tag))
    ensures other != Idle && ThreadOk(s, other) && other.id != th.id ==> ThreadOk(s', other)
  {
    hide Open;
    var m := Message(th.id + 1, th.tag);
    assert m !in Open(s);
    assert forall x :: x in Open(s') <==> x in Open(s) || x == m;
  }

  lemma SendKeepsInv(s: State, t: ThreadId)
    requires Inv(s) && Enabled(s, Send(t))
    ensures Apply(s, Send(t)).Some? && Inv(Apply(s, Send(t)).value)
  {
    hide Open, ThreadOk, OpenOk;
    var s', th := Apply(s, Send(t)).value, s.threads[t];
    SendOpens(s, t);
    MoreOpen(s, s', th, Idle);
    forall u | u in s'.threads && s'.threads[u] != Idle ensures ThreadOk(s', s'.threads[u]) {
      if u != t {
        assert Holds(s, t, th.id) && !Holds(s, u, th.id);
        MoreOpen(s, s', th, s.threads[u]);
      }
    }
    forall u, v, i | Holds(s', u, i) && Holds(s', v, i) ensures u == v {
      assert Holds(s, u, i) && Holds(s, v, i);
    }
  }

  /** Storing a reply: it was the open message of the thread that holds its id. */
  lemma StoreKeepsThread(s: State, s': State, m: Message, th: Thread)
    requires OpenOk(s) && Open(s) == Open(s') + multiset{m} && |s.slots.pending| == |s.slots.response|
    requires s'.slots == s.slots.(response := s'.slots.response)
    requires m in Open(s)
    requires s'.slots.response == s.slots.response[m.requestId - 1 := Some(m.tag)]
    requires th != Idle && ThreadOk(s, th)
    ensures ThreadOk(s', th)
  {
    assert forall x :: x in Open(s') ==> x in Open(s);
    if th.id == m.requestId - 1 {
      assert th == Waiting(m.requestId - 1, m.tag);
      assert m !in Open(s') by { assert Open(s)[m] == 1; }
    } else if th.Waiting? && s.slots.response[th.id] == None {
      assert Message(th.id + 1, th.tag) != m;
    }
  }

  lemma ReceiveStores(s: State)
    requires WellFormed(s.slots, MAX_REQUEST_ID) && OpenOk(s) && Enabled(s, Receive)
    ensures Apply(s, Receive).Some?
    ensures var s', m := Apply(s, Receive).value, s.toClient[0];
      && m in Open(s) && Open(s) == Open(s') + multiset{m}
      && 1 <= m.requestId <= |s.slots.pending|
      && s' == s.(toClient := s.toClient[1..],
                  slots := s.slots.(response := s.slots.response[m.requestId - 1 := Some(m.tag)]))
  {
    TakeOne(s.toClient, 0);
    assert s.toClient[0] in Open(s);
  }

  lemma FewerOpen(s: State, s': State, m: Message)
    requires OpenOk(s) && Open(s) == Open(s') + multiset{m} && s'.slots.pending == s.slots.pending
    ensures OpenOk(s')
  {
    hide Open;
    assert forall x :: x in Open(s') ==> x in Open(s) && Open(s')[x] <= Open(s)[x];
  }

  /** A reply was stored, and nothing else changed. */
  ghost predicate ReplyStored(s: State, s': State, m: Message) {
    && m in Open(s) && Open(s) == Open(s') + multiset{m} && 1 <= m.requestId <= |s.slots.response|
    && s'.slots == s.slots.(response := s.slots.response[m.requestId - 1 := Some(m.tag)])
    && s'.threads == s.threads
  }

  lemma StoreKeepsThreads(s: State, s': State, m: Message)
    requires OpenOk(s) && ThreadsOk(s) && |s.slots.pending| == |s.slots.response| && ReplyStored(s, s', m)
    ensures ThreadsOk(s')
  {
    hide Open, OpenOk, ThreadOk;
    forall u | u in s'.threads && s'.threads[u] != Idle ensures ThreadOk(s', s'.threads[u]) {
      StoreKeepsThread(s, s', m, s.threads[u]);
    }
    forall u, v, i | Holds(s', u, i) && Holds(s', v, i) ensures u == v {
      assert Holds(s, u, i) && Holds(s, v, i);
    }
  }

  lemma ReceiveKeepsInv(s: State)
    requires Inv(s) && Enabled(s, Receive)
    ensures Apply(s, Receive).Some? && Inv(Apply(s, Receive).value)
  {
    var m := s.toClient[0];
    ReceiveStores(s);
    hide Open, OpenOk, ThreadsOk, Enabled, Apply;
    var s' := Apply(s, Receive).value;
    FewerOpen(s, s', m);
    StoreKeepsThreads(s, s', m);
  }

  /** A returning getResponse yields the reply to the request the thread itself sent. */
  lemma GetResponseKeepsInv(s: State, t: ThreadId)
    requires Inv(s) && Enabled(s, GetResponse(t))
    ensures Returned(s, t) == s.threads[t].tag
    ensures Apply(s, GetResponse(t)).Some? && Inv(Apply(s, GetResponse(t)).value)
  {
    var s', th := Apply(s, GetResponse(t)).value, s.threads[t];
    assert ThreadOk(s, th);
    assert Open(s') == Open(s);
    forall u | u in s'.threads && s'.threads[u] != Idle ensures ThreadOk(s', s'.threads[u]) {
      assert ThreadOk(s, s.threads[u]);
      assert Holds(s, t, th.id);
      assert s.threads[u].id == th.id ==> Holds(s, u, th.id);
    }
    forall u, v, i | Holds(s', u, i) && Holds(s', v, i) ensures u == v {
      assert Holds(s, u, i) && Holds(s, v, i);
    }
  }

  /** Every step keeps the invariant, and no reply makes the receive thread leave its arrays. */
  lemma StepKeepsInv(s: State, step: Step)
    requires Inv(s) && Enabled(s, step)
    ensures Apply(s, step).Some? && Inv(Apply(s, step).value)
  {
    assert step.ServerReceive? ==> s.toServer != [];
    assert step.ServerReply? ==> step.i < |s.atServer|;
    assert step.ServerDrop? ==> step.i < |s.atServer|;
    hide Inv, Open, Enabled, Apply, Moves;
    match step {
      case Reserve(t) => ReserveKeepsInv(s, t);
      case Send(t) => SendKeepsInv(s, t);
      case ServerReceive =>
        ServerReceives(s);
        MoveKeepsInv(s, Apply(s, step).value);
      case ServerReply(i) =>
        ServerReplies(s, i);
        MoveKeepsInv(s, Apply(s, step).value);
      case ServerDrop(i) =>
        ServerDrops(s, i);
        MoveKeepsInv(s, Apply(s, step).value);
      case Receive => ReceiveKeepsInv(s);
      case GetResponse(t) => GetResponseKeepsInv(s, t);
    }
  }

  /** The queues as they were. */
  ghost predicate SameQueues(s: State, s': State) {
    s'.toServer == s.toServer && s'.atServer == s.atServer && s'.dropped == s.dropped && s'.toClient == s.toClient
  }

  /** Taking an element out of a queue. */
  ghost predicate TakenOut<T>(from: seq<T>, i: nat, x: T, left: seq<T>) {
    i <= |left| && from == left[..i] + [x] + left[i..]
  }

  /** Threads: a new request gets a tag never used before, is sent to the server and nowhere else,
      and is over when its reply is fetched. */
  lemma ThreadSteps(s: State, t: ThreadId)
    requires Inv(s)
    ensures Enabled(s, Reserve(t)) ==>
      var s' := Apply(s, Reserve(t)).value;
      && s'.threads.Keys == s.threads.Keys && s'.threads[t] == ToSend(s'.threads[t].id, s.nextTag)
      && s'.nextTag > s.nextTag && s'.slots.pending[s'.threads[t].id] && SameQueues(s, s')
      && forall u :: u in s.threads && u != t ==> s'.threads[u] == s.threads[u]
    ensures Enabled(s, Send(t)) ==>
      var s', id, tag := Apply(s, Send(t)).value, s.threads[t].id, s.threads[t].tag;
      && s'.toServer == s.toServer + [Message(id + 1, tag)]
      && s'.atServer == s.atServer && s'.dropped == s.dropped && s'.toClient == s.toClient
      && s'.threads == s.threads[t := Waiting(id, tag)] && s'.slots == s.slots && s'.nextTag == s.nextTag
    ensures Enabled(s, GetResponse(t)) ==>
      var s', id := Apply(s, GetResponse(t)).value, s.threads[t].id;
      && s'.threads == s.threads[t := Idle] && SameQueues(s, s') && s'.nextTag == s.nextTag
      && !s'.slots.pending[id] && s'.slots.response == s.slots.response && s'.slots.next == s.slots.next
      && forall i :: 0 <= i < |s.slots.pending| && i != id ==> s'.slots.pending[i] == s.slots.pending[i]
  {
    ReserveSound(s.slots, MAX_REQUEST_ID);
    hide Inv, WellFormed;
  }

  /** The server: it receives the oldest request sent, and answers any request it has received,
      or never will. */
  lemma ServerSteps(s: State, i: nat)
    ensures s.toServer != [] ==>
      var s' := Apply(s, ServerReceive).value;
      && TakenOut(s.toServer, 0, s.toServer[0], s'.toServer) && s'.atServer == s.atServer + [s.toServer[0]]
      && s' == s.(toServer := s'.toServer, atServer := s'.atServer)
    ensures i < |s.atServer| ==>
      var s' := Apply(s, ServerReply(i)).value;
      && TakenOut(s.atServer, i, s.atServer[i], s'.atServer) && s'.toClient == s.toClient + [s.atServer[i]]
      && s' == s.(atServer := s'.atServer, toClient := s'.toClient)
    ensures i < |s.atServer| ==>
      var s' := Apply(s, ServerDrop(i)).value;
      && TakenOut(s.atServer, i, s.atServer[i], s'.atServer) && s'.dropped == s.dropped + [s.atServer[i]]
      && s' == s.(atServer := s'.atServer, dropped := s'.dropped)
  {
  }

  /** The receive thread: it stores the oldest reply under its own id and touches nothing else. */
  lemma ReceiveStep(s: State)
    requires Inv(s) && Enabled(s, Receive)
    ensures var s', m := Apply(s, Receive).value, s.toClient[0];
      && TakenOut(s.toClient, 0, m, s'.toClient) && 1 <= m.requestId <= |s.slots.response|
      && s'.slots.response == s.slots.response[m.requestId - 1 := Some(m.tag)]
      && s' == s.(toClient := s'.toClient, slots := s.slots.(response := s'.slots.response))
  {
    hide Open, OpenOk, ThreadsOk;
    ReceiveStores(s);
  }

  /** A run: the states it goes through, one more than its steps. */
  ghost predicate IsRun(states: seq<State>, steps: seq<Step>) {
    && |states| == |steps| + 1
    && forall i :: 0 <= i < |steps| ==>
         Enabled(states[i], steps[i]) && Apply(states[i], steps[i]) == Some(states[i + 1])
  }

  lemma {:induction false} RunKeepsInv(states: seq<State>, steps: seq<Step>, threads: set<ThreadId>, i: nat)
    requires IsRun(states, steps) && states[0] == Initial(threads) && i < |states|
    ensures Inv(states[i])
  {
    if i == 0 {
      InitialInv(threads);
    } else {
      RunKeepsInv(states, steps, threads, i - 1);
      StepKeepsInv(states[i - 1], steps[i - 1]);
    }
  }

  /** Over every interleaving: a returned reply is the reply to the thread's own request, and
      an id is handed out only when no request or reply carrying it is open and no thread uses it. */
  lemma RequestsMatchResponses(states: seq<State>, steps: seq<Step>, threads: set<ThreadId>, i: nat)
    requires IsRun(states, steps) && states[0] == Initial(threads) && i < |steps|
    ensures steps[i].GetResponse? ==>
      var t := steps[i].t; Returned(states[i], t) == states[i].threads[t].tag
    ensures steps[i].Reserve? ==>
      var id := states[i + 1].threads[steps[i].t].id;
      && 1 <= id + 1 <= 0xffff
      && (forall m :: m in Open(states[i]) ==> m.requestId != id + 1)
      && (forall u :: !Holds(states[i], u, id))
  {
    RunKeepsInv(states, steps, threads, i);
    match steps[i] {
      case GetResponse(t) => GetResponseKeepsInv(states[i], t);
      case Reserve(t) =>
        ReserveKeepsInv(states[i], t);
        ReserveSound(states[i].slots, MAX_REQUEST_ID);
      case _ =>
    }
  }

  /** The request of a thread, and the reply it finds in its slot. */
  function RequestOf(th: Thread): Message
    requires th != Idle
  {
    Message(th.id + 1, th.tag)
  }

  ghost predicate HasReply(s: State, t: ThreadId, m: Message) {
    && t in s.threads && s.threads[t].Waiting? && s.threads[t].id < |s.slots.response|
    && s.slots.response[s.threads[t].id].Some?
    && m == Message(s.threads[t].id + 1, s.slots.response[s.threads[t].id].value)
  }

  /** In step j of a run thread t sends the request m. */
  ghost predicate SendsAt(states: seq<State>, steps: seq<Step>, j: nat, t: ThreadId, m: Message)
    requires |states| == |steps| + 1
  {
    j < |steps| && steps[j] == Send(t)
    && t in states[j].threads && states[j].threads[t].ToSend? && RequestOf(states[j].threads[t]) == m
  }

  /** The server receives m. */
  ghost predicate ReceivesAt(states: seq<State>, steps: seq<Step>, j: nat, m: Message)
    requires |states| == |steps| + 1
  {
    j < |steps| && steps[j] == ServerReceive && states[j].toServer != [] && states[j].toServer[0] == m
  }

  /** The server answers m. */
  ghost predicate RepliesAt(states: seq<State>, steps: seq<Step>, j: nat, m: Message)
    requires |states| == |steps| + 1
  {
    j < |steps| && steps[j].ServerReply? && steps[j].i < |states[j].atServer| && states[j].atServer[steps[j].i] == m
  }

  /** The answer to m arrives. */
  ghost predicate ArrivesAt(states: seq<State>, steps: seq<Step>, j: nat, m: Message)
    requires |states| == |steps| + 1
  {
    j < |steps| && steps[j] == Receive && states[j].toClient != [] && states[j].toClient[0] == m
  }

  /** Everything in a queue, and every reply stored for a thread that waits, came there by the step
      that is meant to put it there. */
  ghost predicate Explained(states: seq<State>, steps: seq<Step>, i: nat)
    requires i < |states| == |steps| + 1
  {
    var s := states[i];
    && (forall t :: t in s.threads && s.threads[t].Waiting? ==>
          exists j: nat :: j < i && SendsAt(states, steps, j, t, RequestOf(s.threads[t])))
    && (forall m :: m in s.toServer ==> exists j: nat, t :: j < i && SendsAt(states, steps, j, t, m))
    && (forall m :: m in s.atServer || m in s.dropped ==> exists j: nat :: j < i && ReceivesAt(states, steps, j, m))
    && (forall m :: m in s.toClient ==> exists j: nat :: j < i && RepliesAt(states, steps, j, m))
    && (forall t, m :: HasReply(s, t, m) ==> exists j: nat :: j < i && ArrivesAt(states, steps, j, m))
  }

  /** Nothing is explained by a step but what it adds. */
  ghost predicate Adds(s: State, s': State, step: Step)
    requires Enabled(s, step)
  {
    && (forall t :: t in s'.threads && s'.threads[t].Waiting? ==>
          (t in s.threads && s'.threads[t] == s.threads[t])
          || (step == Send(t) && RequestOf(s.threads[t]) == RequestOf(s'.threads[t])))
    && (forall m :: m in s'.toServer ==> m in s.toServer || (step.Send? && m == RequestOf(s.threads[step.t])))
    && (forall m :: m in s'.atServer || m in s'.dropped ==>
          m in s.atServer || m in s.dropped || (step == ServerReceive && m == s.toServer[0]))
    && (forall m :: m in s'.toClient ==> m in s.toClient || (step.ServerReply? && m == s.atServer[step.i]))
    && (forall t, m :: HasReply(s', t, m) ==> HasReply(s, t, m) || (step == Receive && m == s.toClient[0]))
  }

  lemma ReserveAdds(s: State, t: ThreadId)
    requires Inv(s) && Enabled(s, Reserve(t))
    ensures Adds(s, Apply(s, Reserve(t)).value, Reserve(t))
  {
    hide Apply, Open, OpenOk, ThreadsOk, WellFormed;
    ReserveKeepsInv(s, t);
    ThreadSteps(s, t);
    ReserveKeepsReplies(s, t);
  }

  /** Reserving an id neither stores a reply nor touches one. */
  lemma ReserveKeepsReplies(s: State, t: ThreadId)
    requires Inv(s) && Enabled(s, Reserve(t))
    ensures forall u, m :: HasReply(Apply(s, Reserve(t)).value, u, m) ==> HasReply(s, u, m)
  {
    var s' := Apply(s, Reserve(t)).value;
    ReserveKeepsInv(s, t);
    ReserveSound(s.slots, MAX_REQUEST_ID);
    hide OpenOk, Open, WellFormed, ResponseSets.Reserve;
    forall u, m | HasReply(s', u, m) ensures HasReply(s, u, m) {
      assert u != t && ThreadOk(s, s.threads[u]) && Holds(s, u, s.threads[u].id);
    }
  }

  lemma SendAdds(s: State, t: ThreadId)
    requires Inv(s) && Enabled(s, Send(t))
    ensures Adds(s, Apply(s, Send(t)).value, Send(t))
  {
    hide Apply, Open, OpenOk, WellFormed;
    ThreadSteps(s, t);
    assert ThreadOk(s, s.threads[t]);
    hide ThreadsOk;
  }

  lemma ReceiveAdds(s: State)
    requires Inv(s) && Enabled(s, Receive)
    ensures Adds(s, Apply(s, Receive).value, Receive)
  {
    hide Apply, Open, OpenOk, ThreadsOk, WellFormed;
    ReceiveStep(s);
  }

  lemma GetResponseAdds(s: State, t: ThreadId)
    requires Inv(s) && Enabled(s, GetResponse(t))
    ensures Adds(s, Apply(s, GetResponse(t)).value, GetResponse(t))
  {
    hide Apply, Open, OpenOk, ThreadsOk, WellFormed;
    ThreadSteps(s, t);
  }

  lemma ServerAdds(s: State, step: Step)
    requires Enabled(s, step) && (step.ServerReceive? || step.ServerReply? || step.ServerDrop?)
    ensures Apply(s, step).Some? && Adds(s, Apply(s, step).value, step)
  {
    ServerSteps(s, if step.ServerReceive? then 0 else step.i);
  }

  lemma StepAdds(s: State, step: Step)
    requires Inv(s) && Enabled(s, step)
    ensures Apply(s, step).Some? && Adds(s, Apply(s, step).value, step)
  {
    hide Inv, Apply, Adds;
    StepKeepsInv(s, step);
    match step {
      case Reserve(t) => ReserveAdds(s, t);
      case Send(t) => SendAdds(s, t);
      case Receive => ReceiveAdds(s);
      case GetResponse(t) => GetResponseAdds(s, t);
      case _ => ServerAdds(s, step);
    }
  }

  lemma ExplainedNext(states: seq<State>, steps: seq<Step>, i: nat, next: nat)
    requires IsRun(states, steps) && next == i + 1 < |states| && Explained(states, steps, i)
    requires Enabled(states[i], steps[i]) && Adds(states[i], states[next], steps[i])
    ensures Explained(states, steps, next)
  {
    hide Apply, HasReply;
    var s, s', step := states[i], states[next], steps[i];
    forall t | t in s'.threads && s'.threads[t].Waiting?
      ensures exists j: nat :: j < next && SendsAt(states, steps, j, t, RequestOf(s'.threads[t]))
    {
      if step == Send(t) && RequestOf(s.threads[t]) == RequestOf(s'.threads[t]) {
        assert SendsAt(states, steps, i, t, RequestOf(s'.threads[t]));
      }
    }
    forall m | m in s'.toServer ensures exists j: nat, t :: j < next && SendsAt(states, steps, j, t, m) {
      if m !in s.toServer {
        assert SendsAt(states, steps, i, step.t, m);
      }
    }
    forall m | m in s'.atServer || m in s'.dropped
      ensures exists j: nat :: j < next && ReceivesAt(states, steps, j, m)
    {
      if m !in s.atServer && m !in s.dropped {
        assert ReceivesAt(states, steps, i, m);
      }
    }
    forall m | m in s'.toClient ensures exists j: nat :: j < next && RepliesAt(states, steps, j, m) {
      if m !in s.toClient {
        assert RepliesAt(states, steps, i, m);
      }
    }
    forall t, m | HasReply(s', t, m) ensures exists j: nat :: j < next && ArrivesAt(states, steps, j, m) {
      if !HasReply(s, t, m) {
        assert ArrivesAt(states, steps, i, m);
      }
    }
  }

  lemma {:induction false} RunExplained(states: seq<State>, steps: seq<Step>, threads: set<ThreadId>, i: nat)
    requires IsRun(states, steps) && states[0] == Initial(threads) && i < |states|
    ensures Explained(states, steps, i)
  {
    if i > 0 {
      var last := i - 1;
      RunExplained(states, steps, threads, last);
      RunKeepsInv(states, steps, threads, last);
      StepAdds(states[last], steps[last]);
      ExplainedNext(states, steps, last, i);
    }
  }

  /** The tags of a step: a thread keeps its tag, or gets the next one. */
  ghost predicate KeepsTags(s: State, s': State, step: Step) {
    && s'.nextTag >= s.nextTag
    && (forall t :: t in s'.threads && s'.threads[t] != Idle ==>
          if step == Reserve(t) then s'.threads[t].tag == s.nextTag < s'.nextTag
          else t in s.threads && s.threads[t] != Idle && s'.threads[t].tag == s.threads[t].tag)
    && (forall t :: t in s'.threads && s'.threads[t].ToSend? && step != Reserve(t) ==>
          s.threads[t].ToSend? && step != Send(t))
  }

  lemma ThreadTags(s: State, step: Step)
    requires Inv(s) && Enabled(s, step) && (step.Reserve? || step.Send? || step.GetResponse?)
    ensures KeepsTags(s, Apply(s, step).value, step)
  {
    hide Inv, Apply;
    ThreadSteps(s, step.t);
  }

  lemma QueueTags(s: State, step: Step)
    requires Inv(s) && Enabled(s, step) && !(step.Reserve? || step.Send? || step.GetResponse?)
    ensures KeepsTags(s, Apply(s, step).value, step)
  {
    hide Inv, Apply, TakenOut;
    if step.Receive? {
      ReceiveStep(s);
    } else {
      ServerSteps(s, if step.ServerReceive? then 0 else step.i);
    }
  }

  lemma StepTags(s: State, step: Step)
    requires Inv(s) && Enabled(s, step)
    ensures Apply(s, step).Some? && KeepsTags(s, Apply(s, step).value, step)
  {
    hide Inv, Apply, KeepsTags, Enabled;
    StepKeepsInv(s, step);
    if step.Reserve? || step.Send? || step.GetResponse? {
      ThreadTags(s, step);
    } else {
      QueueTags(s, step);
    }
  }

  /** Tags are given out once. */
  ghost predicate TagsFresh(states: seq<State>, steps: seq<Step>, i: nat)
    requires i < |states| == |steps| + 1
  {
    var s := states[i];
    && (forall t :: t in s.threads && s.threads[t] != Idle ==> s.threads[t].tag < s.nextTag)
    && (forall t, u :: t in s.threads && u in s.threads && s.threads[t] != Idle && s.threads[u] != Idle && t != u ==>
          s.threads[t].tag != s.threads[u].tag)
    && (forall j: nat, u, m :: j < i && SendsAt(states, steps, j, u, m) ==>
          m.tag < s.nextTag && forall t :: t in s.threads && s.threads[t].ToSend? ==> s.threads[t].tag != m.tag)
  }

  lemma TagsFreshNext(states: seq<State>, steps: seq<Step>, i: nat, next: nat)
    requires |states| == |steps| + 1 && next == i + 1 < |states| && TagsFresh(states, steps, i)
    requires KeepsTags(states[i], states[next], steps[i])
    ensures TagsFresh(states, steps, next)
  {
    var s, s' := states[i], states[next];
    forall j: nat, u, m | j < next && SendsAt(states, steps, j, u, m)
      ensures m.tag < s'.nextTag && forall t :: t in s'.threads && s'.threads[t].ToSend? ==> s'.threads[t].tag != m.tag
    {
      if j == i {
        assert s.threads[u].tag == m.tag;
      }
    }
  }

  lemma {:induction false} RunTagsFresh(states: seq<State>, steps: seq<Step>, threads: set<ThreadId>, i: nat)
    requires IsRun(states, steps) && states[0] == Initial(threads) && i < |states|
    ensures TagsFresh(states, steps, i)
  {
    if i > 0 {
      var last := i - 1;
      RunTagsFresh(states, steps, threads, last);
      RunKeepsInv(states, steps, threads, last);
      StepTags(states[last], steps[last]);
      TagsFreshNext(states, steps, last, i);
    }
  }

  /** A request is sent once. */
  lemma SentOnce(states: seq<State>, steps: seq<Step>, threads: set<ThreadId>, j: nat, t: ThreadId, k: nat, u: ThreadId,
                 m: Message)
    requires IsRun(states, steps) && states[0] == Initial(threads)
    requires SendsAt(states, steps, j, t, m) && SendsAt(states, steps, k, u, m)
    ensures j == k && t == u
  {
    RunTagsFresh(states, steps, threads, j);
    RunTagsFresh(states, steps, threads, k);
  }

  /** A returned reply has been all the way: the thread sent the request, the server received it,
      the server answered it, and the answer arrived, in this order. */
  lemma RepliesComeFromServer(states: seq<State>, steps: seq<Step>, threads: set<ThreadId>, i: nat)
    returns (sent: nat, received: nat, replied: nat, arrived: nat)
    requires IsRun(states, steps) && states[0] == Initial(threads) && i < |steps| && steps[i].GetResponse?
    ensures Enabled(states[i], steps[i])
    ensures sent < received < replied < arrived < i
    ensures var t, m := steps[i].t, RequestOf(states[i].threads[steps[i].t]);
      && SendsAt(states, steps, sent, t, m) && ReceivesAt(states, steps, received, m)
      && RepliesAt(states, steps, replied, m) && ArrivesAt(states, steps, arrived, m)
  {
    var t, s := steps[i].t, states[i];
    assert Enabled(s, steps[i]);
    var m := RequestOf(s.threads[t]);
    RunExplained(states, steps, threads, i);
    RequestsMatchResponses(states, steps, threads, i);
    assert HasReply(s, t, m);
    arrived :| arrived < i && ArrivesAt(states, steps, arrived, m);
    var u;
    sent, received, replied, u := WayOfAnswer(states, steps, threads, arrived, m);
    var j: nat :| j < i && SendsAt(states, steps, j, t, m);
    SentOnce(states, steps, threads, sent, u, j, t, m);
  }

  lemma WayOfAnswer(states: seq<State>, steps: seq<Step>, threads: set<ThreadId>, arrived: nat, m: Message)
    returns (sent: nat, received: nat, replied: nat, u: ThreadId)
    requires IsRun(states, steps) && states[0] == Initial(threads) && ArrivesAt(states, steps, arrived, m)
    ensures sent < received < replied < arrived && SendsAt(states, steps, sent, u, m)
    ensures ReceivesAt(states, steps, received, m) && RepliesAt(states, steps, replied, m)
  {
    RunExplained(states, steps, threads, arrived);
    assert m in states[arrived].toClient;
    replied :| replied < arrived && RepliesAt(states, steps, replied, m);
    RunExplained(states, steps, threads, replied);
    assert m in states[replied].atServer;
    received :| received < replied && ReceivesAt(states, steps, received, m);
    RunExplained(states, steps, threads, received);
    assert m in states[received].toServer;
    sent, u :| sent < received && SendsAt(states, steps, sent, u, m);
  }

  lemma OneStepMore(states: seq<State>, steps: seq<Step>, step: Step) returns (states': seq<State>, steps': seq<Step>)
    requires IsRun(states, steps) && Inv(states[|steps|]) && Enabled(states[|steps|], step)
    ensures IsRun(states', steps') && |steps'| == |steps| + 1 && steps' == steps + [step] && states < states'
    ensures Apply(states[|steps|], step).Some? && states'[|steps'|] == Apply(states[|steps|], step).value
    ensures Inv(states'[|steps'|])
  {
    hide Inv, Apply, Enabled;
    StepKeepsInv(states[|steps|], step);
    steps', states' := steps + [step], states + [Apply(states[|steps|], step).value];
  }

  /** m is the last message in the first queue, or has passed into the second one. */
  ghost predicate LastOr(queue: seq<Message>, m: Message, passed: bool) {
    if queue == [] then passed else queue[|queue| - 1] == m
  }

  ghost predicate LastIs(queue: seq<Message>, m: Message) {
    queue != [] && queue[|queue| - 1] == m
  }

  lemma AllReceived(states: seq<State>, steps: seq<Step>, t: ThreadId, th: Thread)
    returns (states': seq<State>, steps': seq<Step>)
    requires IsRun(states, steps) && Inv(states[|steps|]) && th.Waiting?
    requires var s := states[|steps|]; t in s.threads && s.threads[t] == th && LastIs(s.toServer, RequestOf(th))
    ensures IsRun(states', steps') && Inv(states'[|steps'|]) && states'[0] == states[0]
    ensures var s := states'[|steps'|]; t in s.threads && s.threads[t] == th && LastIs(s.atServer, RequestOf(th))
  {
    hide Inv, Enabled, Apply;
    states', steps' := states, steps;
    while states'[|steps'|].toServer != []
      invariant IsRun(states', steps') && Inv(states'[|steps'|]) && states'[0] == states[0]
      invariant t in states'[|steps'|].threads && states'[|steps'|].threads[t] == th
      invariant LastOr(states'[|steps'|].toServer, RequestOf(th), LastIs(states'[|steps'|].atServer, RequestOf(th)))
      decreases |states'[|steps'|].toServer|
    {
      ghost var s := states'[|steps'|];
      EnabledServer(s);
      ServerSteps(s, 0);
      states', steps' := OneStepMore(states', steps', ServerReceive);
    }
  }

  lemma EnabledServer(s: State)
    ensures s.toServer != [] ==> Enabled(s, ServerReceive)
    ensures s.atServer != [] ==> Enabled(s, ServerReply(|s.atServer| - 1))
    ensures s.toClient != [] ==> Enabled(s, Receive)
  {
  }

  /** The reply to the request of thread t is stored. */
  ghost predicate ReplyStoredFor(s: State, th: Thread)
    requires th.Waiting?
  {
    th.id < |s.slots.response| && s.slots.response[th.id] == Some(th.tag)
  }

  lemma AllArrived(states: seq<State>, steps: seq<Step>, t: ThreadId, th: Thread)
    returns (states': seq<State>, steps': seq<Step>)
    requires IsRun(states, steps) && Inv(states[|steps|]) && th.Waiting?
    requires var s := states[|steps|]; t in s.threads && s.threads[t] == th && LastIs(s.toClient, RequestOf(th))
    ensures IsRun(states', steps') && Inv(states'[|steps'|]) && states'[0] == states[0]
    ensures var s := states'[|steps'|]; t in s.threads && s.threads[t] == th && ReplyStoredFor(s, th)
  {
    hide Inv, Enabled, Apply;
    states', steps' := states, steps;
    while states'[|steps'|].toClient != []
      invariant IsRun(states', steps') && Inv(states'[|steps'|]) && states'[0] == states[0]
      invariant t in states'[|steps'|].threads && states'[|steps'|].threads[t] == th
      invariant LastOr(states'[|steps'|].toClient, RequestOf(th), ReplyStoredFor(states'[|steps'|], th))
      decreases |states'[|steps'|].toClient|
    {
      ghost var s := states'[|steps'|];
      EnabledServer(s);
      ReceiveStep(s);
      states', steps' := OneStepMore(states', steps', Receive);
    }
  }

  lemma Answered(states: seq<State>, steps: seq<Step>, t: ThreadId, th: Thread)
    returns (states': seq<State>, steps': seq<Step>)
    requires IsRun(states, steps) && Inv(states[|steps|]) && th.Waiting?
    requires var s := states[|steps|]; t in s.threads && s.threads[t] == th && LastIs(s.atServer, RequestOf(th))
    ensures IsRun(states', steps') && Inv(states'[|steps'|]) && states'[0] == states[0]
    ensures var s := states'[|steps'|]; t in s.threads && s.threads[t] == th && LastIs(s.toClient, RequestOf(th))
  {
    hide Inv, Enabled, Apply, TakenOut;
    var s := states[|steps|];
    var n: nat := |s.atServer| - 1;
    EnabledServer(s);
    ServerSteps(s, n);
    states', steps' := OneStepMore(states, steps, ServerReply(n));
  }

  lemma Fetched(states: seq<State>, steps: seq<Step>, t: ThreadId, th: Thread)
    returns (states': seq<State>, steps': seq<Step>)
    requires IsRun(states, steps) && Inv(states[|steps|]) && th.Waiting?
    requires var s := states[|steps|]; t in s.threads && s.threads[t] == th && ReplyStoredFor(s, th)
    ensures IsRun(states', steps') && steps' == steps + [GetResponse(t)] && states'[0] == states[0]
    ensures Enabled(states'[|steps|], GetResponse(t)) && Returned(states'[|steps|], t) == th.tag
  {
    hide Open, OpenOk, WellFormed, Apply;
    var s := states[|steps|];
    assert ThreadOk(s, th);
    states', steps' := OneStepMore(states, steps, GetResponse(t));
    assert states'[|steps|] == s by { RunGrows(states, steps, states', steps'); }
  }

  lemma RunGrows(states: seq<State>, steps: seq<Step>, states': seq<State>, steps': seq<Step>)
    requires IsRun(states, steps) && states <= states' && steps <= steps'
    ensures states'[|steps|] == states[|steps|]
  {
  }

  /** Whatever else is open, a thread that has reserved an id can be answered: the run goes on to
      the state in which its reply is returned. */
  lemma RequestCanBeAnswered(s: State, t: ThreadId) returns (states: seq<State>, steps: seq<Step>)
    requires Inv(s) && Enabled(s, Send(t))
    ensures IsRun(states, steps) && states[0] == s && steps != [] && steps[|steps| - 1] == GetResponse(t)
    ensures Enabled(states[|steps| - 1], GetResponse(t)) && Returned(states[|steps| - 1], t) == s.threads[t].tag
  {
    hide Inv, Apply, Returned, ReplyStoredFor;
    var th := Waiting(s.threads[t].id, s.threads[t].tag);
    ThreadSteps(s, t);
    states, steps := OneStepMore([s], [], Send(t));
    states, steps := AllReceived(states, steps, t, th);
    states, steps := Answered(states, steps, t, th);
    states, steps := AllArrived(states, steps, t, th);
    states, steps := Fetched(states, steps, t, th);
  }
}
