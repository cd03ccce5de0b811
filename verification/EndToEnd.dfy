/** Frames of any number of streams over one connection: workers on the server encode frames and
    send them as Data messages, each message under the client's lock; the network moves bytes
    in pieces of any size; the client's receive thread hands each whole message to the decoder
    of its stream. The steps of all of them interleave freely. */
module EndToEnd {
  import opened Bytes
  import opened Packing
  import opened Messages
  import opened Net
  import opened StreamWorkers
  import Router
  import Decoders
  import Jpeg
  import JpegStreams

  /** A worker: what its encoder still holds, and what encoding each later frame will give. */
  datatype Worker = Worker(queued: seq<byte>, later: seq<seq<byte>>)

  datatype State = State(
    workers: map<cstring, Worker>,
    transit: seq<byte>,                    // sent, not yet received
    inbox: seq<byte>,                      // received, not yet handed on
    calls: map<cstring, seq<seq<byte>>>)   // the data each decoder was called with so far

  datatype Step =
    | Encode(name: cstring)      // the worker encodes its next frame, its encoder being empty
    | Send(name: cstring)        // the worker sends the next piece of what its encoder holds
    | SendOther(message: Message) // a reply, or another message, of which the client decodes nothing
    | Transfer(n: nat)           // the network moves n bytes
    | Deliver                    // the receive thread handles the whole message it has received

  /** What lib/comm.c:101 and lib/messagehandlers.c:43-53 give to a decoder. */
  predicate IsData(m: Message) {
    m.requestId == 0 && m.payloadSize != 0 && |m.components| == 2 && m.components[0] == DATA
  }

  function Signed(b: byte): (c: Router.Char)
    ensures c == 0 <==> b == 0
  {
    if b < 128 then b else b as int - 256
  }

  /** A string as the router reads it, whose chars are signed. */
  function AsRequest(s: cstring): (r: Router.Request) {
    seq(|s|, i requires 0 <= i < |s| => Signed(s[i]))
  }

  /** The client's router does not read behind the end of a name when it searches for the message. */
  predicate RoutedInside(m: Message) {
    m.requestId != 0 || m.components == [] ||
    !Router.Searched(Router.CLIENT_TABLE, AsRequest(m.components[0])).PastEnd?
  }

  /** What the client decodes are the messages that are no replies, that the router hands to the
      handler for data, and that pass the handler's own test. */
  lemma DataIsRouted(m: Message)
    ensures IsData(m) <==>
      && m.requestId == 0 && m.components != []
      && Router.Searched(Router.CLIENT_TABLE, AsRequest(m.components[0])) == Router.Found(1)
      && |m.components| == 2 && m.payloadSize != 0 && m.components[0] == DATA
    ensures IsData(m) ==> RoutedInside(m)
  {
    Router.ClientTableSearched();
    assert AsRequest(DATA) == Router.DATA;
  }

  predicate IsFor(m: Message, name: cstring) {
    IsData(m) && m.components[1] == name
  }

  ghost predicate Enabled(s: State, step: Step) {
    match step
    case Encode(name) => name in s.workers && s.workers[name].queued == [] && s.workers[name].later != []
    case Send(name) => name in s.workers && s.workers[name].queued != []
    case SendOther(m) => Sendable(m) && !IsData(m) && RoutedInside(m)
    case Transfer(n) => n <= |s.transit|
    case Deliver => ReadFront(s.inbox).Whole?
  }

  function Piece(w: Worker): seq<byte> {
    w.queued[..Min(PAYLOAD_BUFFER_SIZE, |w.queued|)]
  }

  function Apply(s: State, step: Step): State
    requires Enabled(s, step)
  {
    match step
    case Encode(name) =>
      var w := s.workers[name];
      s.(workers := s.workers[name := Worker(w.later[0], w.later[1..])])
    case Send(name) =>
      var w := s.workers[name];
      s.(workers := s.workers[name := Worker(w.queued[|Piece(w)|..], w.later)],
         transit := s.transit + Wire(DataMessage(name, Piece(w))))
    case SendOther(m) => s.(transit := s.transit + Wire(m))
    case Transfer(n) => s.(transit := s.transit[n..], inbox := s.inbox + s.transit[..n])
    case Deliver =>
      var front := ReadFront(s.inbox);
      var m, s' := front.message, s.(inbox := front.rest);
      if IsData(m) && m.components[1] in s.calls then
        s'.(calls := s.calls[m.components[1] := s.calls[m.components[1]] + [m.payload]])
      else s'
  }

  /** The payloads of a message list that are for one stream. */
  function Payloads(messages: seq<Message>, name: cstring): seq<seq<byte>> {
    if messages == [] then []
    else (if IsFor(messages[0], name) then [messages[0].payload] else []) + Payloads(messages[1..], name)
  }

  lemma {:induction false} PayloadsAppend(a: seq<Message>, b: seq<Message>, name: cstring)
    ensures Payloads(a + b, name) == Payloads(a, name) + Payloads(b, name)
  {
    if a == [] {
      assert a + b == b;
    } else {
      var tail, first := a[1..], if IsFor(a[0], name) then [a[0].payload] else [];
      PayloadsAppend(tail, b, name);
      assert (a + b)[0] == a[0] && (a + b)[1..] == tail + b;
      assert Payloads(a, name) == first + Payloads(tail, name);
      assert Payloads(a + b, name) == first + Payloads(tail + b, name);
      hide *;
      assert first + (Payloads(tail, name) + Payloads(b, name)) == first + Payloads(tail, name) + Payloads(b, name);
    }
  }

  /** The pieces of frames each of which is drained before the next is encoded. */
  function FrameChunks(frames: seq<seq<byte>>): seq<seq<byte>> {
    if frames == [] then [] else Chunks(PAYLOAD_BUFFER_SIZE, frames[0]) + FrameChunks(frames[1..])
  }

  /** The bytes sent and not yet handed on are whole messages, these: */
  function Flight(s: State): seq<Message> {
    ParseStream(s.inbox + s.transit)
  }

  /** For every stream: what its decoder got, what is on the way to it, what its worker's
      encoder holds and what is yet to be encoded are, in this order, the pieces of its frames. */
  ghost predicate Inv(encoded: map<cstring, seq<seq<byte>>>, s: State) {
    && s.workers.Keys == s.calls.Keys == encoded.Keys
    && Framed(s)
    && (forall name :: name in encoded ==> Balanced(encoded[name], s.calls[name], Flight(s), s.workers[name], name))
  }

  ghost predicate Framed(s: State) {
    (forall m :: m in Flight(s) ==> Sendable(m)) && WireAll(Flight(s)) == s.inbox + s.transit
  }

  ghost predicate Balanced(frames: seq<seq<byte>>, calls: seq<seq<byte>>, flight: seq<Message>, w: Worker,
                           name: cstring) {
    calls + Payloads(flight, name) + Pending(w) == FrameChunks(frames)
  }

  function Pending(w: Worker): seq<seq<byte>> {
    Chunks(PAYLOAD_BUFFER_SIZE, w.queued) + FrameChunks(w.later)
  }

  function Initial(encoded: map<cstring, seq<seq<byte>>>): State {
    State(map name | name in encoded :: Worker([], encoded[name]), [], [], map name | name in encoded :: [])
  }

  lemma InitialInv(encoded: map<cstring, seq<seq<byte>>>)
    ensures Inv(encoded, Initial(encoded))
  {
    var s := Initial(encoded);
    assert s.inbox + s.transit == [];
    NothingThere();
    forall name | name in encoded ensures Balanced(encoded[name], s.calls[name], [], s.workers[name], name) {
      assert Chunks(PAYLOAD_BUFFER_SIZE, s.workers[name].queued) == [];
    }
  }

  lemma FramedAfterSend(s: State, s': State, m: Message)
    requires Framed(s) && Sendable(m) && s'.inbox == s.inbox && s'.transit == s.transit + Wire(m)
    ensures Framed(s') && Flight(s') == Flight(s) + [m]
  {
    hide Wire;
    var bytes, flight := s.inbox + (s.transit + Wire(m)), Flight(s) + [m];
    WireAllAppend(Flight(s), m);
    assert bytes == WireAll(flight) && bytes == WireAll(flight) + [];
    ParseOfWire(flight, []);
    NothingThere();
    assert flight + [] == flight;
  }

  lemma {:induction false} WireAllAppend(messages: seq<Message>, m: Message)
    ensures WireAll(messages + [m]) == WireAll(messages) + Wire(m)
  {
    hide Wire;
    if messages == [] {
      assert messages + [m] == [m];
      assert WireAll([m]) == Wire(m) + WireAll([m][1..]) && [m][1..] == [];
    } else {
      WireAllAppend(messages[1..], m);
      assert (messages + [m])[0] == messages[0] && (messages + [m])[1..] == messages[1..] + [m];
    }
  }

  lemma DataSendable(name: cstring, payload: seq<byte>)
    requires |name| < 0xfffa && 0 < |payload| <= PAYLOAD_BUFFER_SIZE
    ensures Sendable(DataMessage(name, payload))
    ensures forall other :: IsFor(DataMessage(name, payload), other) <==> other == name
  {
    var components := [DATA, name];
    assert components[1..] == [name] && components[1..][1..] == [];
    assert DataLength(components) == |DATA| + 1 + (|name| + 1 + DataLength(components[1..][1..]));
  }

  /** A message joins the flight. */
  lemma BalanceSend(frames: seq<seq<byte>>, calls: seq<seq<byte>>, flight: seq<Message>, w: Worker,
                    m: Message, name: cstring)
    requires Balanced(frames, calls, flight, w, name)
    ensures !IsFor(m, name) ==> Balanced(frames, calls, flight + [m], w, name)
    ensures IsFor(m, name) && w.queued != [] && m.payload == Piece(w) ==>
      Balanced(frames, calls, flight + [m], Worker(w.queued[|Piece(w)|..], w.later), name)
  {
    PayloadsAppend(flight, [m], name);
    assert [m][1..] == [] && Payloads([m], name) == if IsFor(m, name) then [m.payload] else [];
    hide Payloads, FrameChunks;
    assert Payloads(flight, name) + [] == Payloads(flight, name);
    if IsFor(m, name) && w.queued != [] && m.payload == Piece(w) {
      var rest := Chunks(PAYLOAD_BUFFER_SIZE, w.queued[|Piece(w)|..]);
      Regroup(calls, Payloads(flight, name), m.payload, rest, FrameChunks(w.later));
    }
  }

  lemma Regroup<T>(a: seq<T>, b: seq<T>, x: T, c: seq<T>, d: seq<T>)
    ensures a + b + ([x] + c + d) == a + (b + [x]) + (c + d)
  {
  }

  /** A frame is encoded: the worker owes the same pieces as before. */
  lemma EncodeOwesSame(w: Worker)
    requires w.queued == [] && w.later != []
    ensures Pending(Worker(w.later[0], w.later[1..])) == Pending(w)
  {
  }

  /** A message leaves the flight for its decoder. */
  lemma BalanceDeliver(frames: seq<seq<byte>>, calls: seq<seq<byte>>, flight: seq<Message>, w: Worker, name: cstring)
    requires Balanced(frames, calls, flight, w, name) && flight != []
    ensures Balanced(frames, if IsFor(flight[0], name) then calls + [flight[0].payload] else calls, flight[1..],
                     w, name)
  {
    hide Pending, FrameChunks;
    var rest := Payloads(flight[1..], name);
    if IsFor(flight[0], name) {
      assert calls + ([flight[0].payload] + rest) == calls + [flight[0].payload] + rest;
    } else {
      assert [] + rest == rest;
    }
  }

  /** A whole message at the front stays one when more bytes arrive. */
  lemma ReadFrontExtends(s: seq<byte>, t: seq<byte>)
    requires ReadFront(s).Whole?
    ensures ReadFront(s + t) == Whole(ReadFront(s).message, ReadFront(s).rest + t)
  {
    var n := Get16(s) + PREFIX_LENGTH;
    assert Get16(s + t) == Get16(s);
    assert (s + t)[..n] == s[..n] && (s + t)[n..] == s[n..] + t;
    var size := ReadFront(s).message.payloadSize;
    assert (s[n..] + t)[..size] == s[n..][..size] && (s[n..] + t)[size..] == s[n..][size..] + t;
  }

  /** The receive thread takes the oldest message of the flight. */
  lemma FramedAfterDeliver(s: State, s': State)
    requires Framed(s) && ReadFront(s.inbox).Whole? && ReadFront(s.inbox).rest == s'.inbox && s'.transit == s.transit
    ensures Flight(s) != [] && ReadFront(s.inbox).message == Flight(s)[0]
    ensures Framed(s') && Flight(s') == Flight(s)[1..]
  {
    ReadFrontExtends(s.inbox, s.transit);
    hide ReadFront;
    var flight := Flight(s);
    ReadFrontOfWire(flight[0], WireAll(flight[1..]));
  }

  ghost predicate NamesFit(encoded: map<cstring, seq<seq<byte>>>) {
    forall name :: name in encoded ==> |name| < 0xfffa
  }

  /** Every step of every thread keeps the invariant. */
  lemma StepKeepsInv(encoded: map<cstring, seq<seq<byte>>>, s: State, step: Step)
    requires Inv(encoded, s) && NamesFit(encoded) && Enabled(s, step)
    ensures Inv(encoded, Apply(s, step))
  {
    var s' := Apply(s, step);
    hide Flight, Framed, Balanced, ReadFront, Wire, IsFor, Sendable;
    match step {
      case Encode(name) =>
        EncodeKeepsInv(encoded, s, name);
      case Send(name) =>
        SendKeepsInv(encoded, s, name);
      case SendOther(m) =>
        SendOtherKeepsInv(encoded, s, m);
      case Transfer(n) =>
        TransferKeepsInv(encoded, s, n);
      case Deliver =>
        DeliverKeepsInv(encoded, s);
    }
  }

  lemma EncodeKeepsInv(encoded: map<cstring, seq<seq<byte>>>, s: State, name: cstring)
    requires Inv(encoded, s) && Enabled(s, Encode(name))
    ensures Inv(encoded, Apply(s, Encode(name)))
  {
    hide ParseStream, Payloads, Pending, FrameChunks, Sendable, WireAll;
    var s' := Apply(s, Encode(name));
    assert Flight(s') == Flight(s);
    EncodeOwesSame(s.workers[name]);
    forall other | other in encoded
      ensures Balanced(encoded[other], s'.calls[other], Flight(s'), s'.workers[other], other)
    {
      assert Balanced(encoded[other], s.calls[other], Flight(s), s.workers[other], other);
    }
  }

  lemma SendKeepsInv(encoded: map<cstring, seq<seq<byte>>>, s: State, name: cstring)
    requires Inv(encoded, s) && Enabled(s, Send(name)) && NamesFit(encoded)
    ensures Inv(encoded, Apply(s, Send(name)))
  {
    hide Flight, Framed, Sendable, Wire, Balanced, IsFor;
    var s', w := Apply(s, Send(name)), s.workers[name];
    var m := DataMessage(name, Piece(w));
    DataSendable(name, Piece(w));
    FramedAfterSend(s, s', m);
    forall other | other in encoded
      ensures Balanced(encoded[other], s'.calls[other], Flight(s'), s'.workers[other], other)
    {
      BalanceSend(encoded[other], s.calls[other], Flight(s), s.workers[other], m, other);
    }
  }

  lemma SendOtherKeepsInv(encoded: map<cstring, seq<seq<byte>>>, s: State, m: Message)
    requires Inv(encoded, s) && Enabled(s, SendOther(m))
    ensures Inv(encoded, Apply(s, SendOther(m)))
  {
    hide Flight, Framed, Balanced, Wire, Sendable;
    var s' := Apply(s, SendOther(m));
    FramedAfterSend(s, s', m);
    forall other | other in encoded
      ensures Balanced(encoded[other], s'.calls[other], Flight(s'), s'.workers[other], other)
    {
      BalanceSend(encoded[other], s.calls[other], Flight(s), s.workers[other], m, other);
    }
  }

  lemma TransferKeepsInv(encoded: map<cstring, seq<seq<byte>>>, s: State, n: nat)
    requires Inv(encoded, s) && Enabled(s, Transfer(n))
    ensures Inv(encoded, Apply(s, Transfer(n)))
  {
    hide ParseStream, WireAll, Payloads, Pending, FrameChunks, Sendable, Wire, Chunks;
    var s' := Apply(s, Transfer(n));
    assert s'.inbox + s'.transit == s.inbox + s.transit;
    assert Flight(s') == Flight(s);
  }

  lemma DeliverKeepsInv(encoded: map<cstring, seq<seq<byte>>>, s: State)
    requires Inv(encoded, s) && Enabled(s, Deliver)
    ensures Inv(encoded, Apply(s, Deliver))
  {
    hide Flight, Framed, ReadFront, Balanced;
    var s' := Apply(s, Deliver);
    FramedAfterDeliver(s, s');
    forall other | other in encoded
      ensures Balanced(encoded[other], s'.calls[other], Flight(s'), s'.workers[other], other)
    {
      BalanceDeliver(encoded[other], s.calls[other], Flight(s), s.workers[other], other);
    }
  }

  /** The receive thread hands the oldest message in flight on: its payload to the decoder of the
      stream it is for, if it is for one, and to no other. */
  lemma DeliverHandsOn(encoded: map<cstring, seq<seq<byte>>>, s: State)
    requires Inv(encoded, s) && Enabled(s, Deliver)
    ensures var s' := Apply(s, Deliver);
      && Flight(s) != [] && Flight(s') == Flight(s)[1..] && s.inbox == Wire(Flight(s)[0]) + s'.inbox
      && s'.transit == s.transit && s'.workers == s.workers && s'.calls.Keys == s.calls.Keys
      && forall name :: name in s.calls ==>
           s'.calls[name] == s.calls[name] + if IsFor(Flight(s)[0], name) then [Flight(s)[0].payload] else []
  {
    hide Flight, Framed, ReadFront, Wire, Balanced;
    var s' := Apply(s, Deliver);
    FramedAfterDeliver(s, s');
    FrontIsWire(s, s');
    var m := Flight(s)[0];
    forall name | name in s.calls ensures s'.calls[name] == s.calls[name] + if IsFor(m, name) then [m.payload] else [] {
      assert s.calls[name] + [] == s.calls[name];
    }
  }

  lemma FrontIsWire(s: State, s': State)
    requires Framed(s) && Framed(s') && Flight(s) != [] && Flight(s') == Flight(s)[1..] && s'.transit == s.transit
    ensures s.inbox == Wire(Flight(s)[0]) + s'.inbox
  {
    hide Flight, Wire, Sendable;
    var m := Flight(s)[0];
    assert WireAll(Flight(s)) == Wire(m) + WireAll(Flight(s'));
    assert s.inbox + s.transit == Wire(m) + s'.inbox + s'.transit;
    SameFront(s.inbox, Wire(m) + s'.inbox, s.transit);
  }

  lemma SameFront<T>(a: seq<T>, b: seq<T>, tail: seq<T>)
    requires a + tail == b + tail
    ensures a == b
  {
    assert |a| == |b|;
    assert a == (a + tail)[..|a|] == (b + tail)[..|a|] == b;
  }

  /** Encoding puts the next frame into the encoder, which is empty. */
  lemma EncodeQueuesNext(s: State, name: cstring)
    requires Enabled(s, Encode(name))
    ensures var s', w := Apply(s, Encode(name)), s.workers[name];
      && name in s'.workers && w.queued == [] && w.later == [s'.workers[name].queued] + s'.workers[name].later
      && s' == s.(workers := s.workers[name := s'.workers[name]])
  {
  }

  /** Sending puts the next piece of what the encoder holds in flight, as large as the payload
      buffer or all there is. */
  lemma SendPutsInFlight(encoded: map<cstring, seq<seq<byte>>>, s: State, name: cstring)
    requires Inv(encoded, s) && NamesFit(encoded) && Enabled(s, Send(name))
    ensures var s', w := Apply(s, Send(name)), s.workers[name];
      && name in s'.workers && s'.workers[name].later == w.later && |s'.workers[name].queued| < |w.queued|
      && var piece := w.queued[..|w.queued| - |s'.workers[name].queued|];
      && w.queued == piece + s'.workers[name].queued && |piece| <= PAYLOAD_BUFFER_SIZE
      && (|piece| < PAYLOAD_BUFFER_SIZE ==> s'.workers[name].queued == [])
      && Flight(s') == Flight(s) + [DataMessage(name, piece)]
      && s'.transit == s.transit + Wire(DataMessage(name, piece))
      && s' == s.(workers := s.workers[name := s'.workers[name]], transit := s'.transit)
  {
    hide Flight, Framed, Sendable, Wire, Balanced;
    var s', w := Apply(s, Send(name)), s.workers[name];
    DataSendable(name, Piece(w));
    FramedAfterSend(s, s', DataMessage(name, Piece(w)));
  }

  /** The network moves the oldest n bytes and changes nothing that is in flight. */
  lemma TransferMovesOldest(s: State, n: nat)
    requires Enabled(s, Transfer(n))
    ensures var s' := Apply(s, Transfer(n));
      && |s'.transit| == |s.transit| - n && s.inbox + s.transit == s'.inbox + s'.transit && s.inbox <= s'.inbox
      && Flight(s') == Flight(s) && s' == s.(transit := s'.transit, inbox := s'.inbox)
  {
    var s' := Apply(s, Transfer(n));
    assert s'.inbox + s'.transit == s.inbox + s.transit;
    hide ParseStream;
  }

  ghost predicate CanRun(s: State, steps: seq<Step>)
    decreases |steps|
  {
    steps == [] || (Enabled(s, steps[0]) && CanRun(Apply(s, steps[0]), steps[1..]))
  }

  function Run(s: State, steps: seq<Step>): State
    requires CanRun(s, steps)
    decreases |steps|
  {
    if steps == [] then s else Run(Apply(s, steps[0]), steps[1..])
  }

  lemma {:induction false} RunKeepsInv(encoded: map<cstring, seq<seq<byte>>>, s: State, steps: seq<Step>)
    requires Inv(encoded, s) && NamesFit(encoded) && CanRun(s, steps)
    ensures Inv(encoded, Run(s, steps))
    decreases |steps|
  {
    hide Inv, Enabled, Apply;
    if steps != [] {
      StepKeepsInv(encoded, s, steps[0]);
      RunKeepsInv(encoded, Apply(s, steps[0]), steps[1..]);
    }
  }

  /** Nothing is left to encode, to send or on the way. */
  ghost predicate Finished(s: State, name: cstring)
    requires name in s.workers
  {
    s.workers[name] == Worker([], []) && s.inbox == [] && s.transit == []
  }

  lemma {:induction false} RunAppend(s: State, a: seq<Step>, b: seq<Step>)
    requires CanRun(s, a) && CanRun(Run(s, a), b)
    ensures CanRun(s, a + b) && Run(s, a + b) == Run(Run(s, a), b)
    decreases |a|
  {
    hide Enabled, Apply;
    if a == [] {
      assert a + b == b;
    } else {
      RunAppend(Apply(s, a[0]), a[1..], b);
      assert (a + b)[0] == a[0] && (a + b)[1..] == a[1..] + b;
    }
  }

  lemma OneStep(s: State, step: Step)
    requires Enabled(s, step)
    ensures CanRun(s, [step]) && Run(s, [step]) == Apply(s, step)
  {
    assert [step][1..] == [];
    hide Enabled, Apply;
  }

  /** Nothing is on the way. */
  ghost predicate Quiet(s: State) {
    s.inbox == [] && s.transit == []
  }

  lemma NoMessages(messages: seq<Message>)
    ensures messages == [] ==> WireAll(messages) == []
  {
  }

  /** When everything has been received, whole messages are there. */
  lemma InboxIsWhole(s: State)
    requires Framed(s) && s.transit == [] && s.inbox != []
    ensures Enabled(s, Deliver)
  {
    hide ReadFront, Wire, ParseStream;
    assert s.inbox + s.transit == s.inbox;
    var flight := Flight(s);
    NoMessages(flight);
    ReadFrontOfWire(flight[0], WireAll(flight[1..]));
  }

  lemma {:induction false} CanDeliver(encoded: map<cstring, seq<seq<byte>>>, s: State) returns (steps: seq<Step>)
    requires Inv(encoded, s) && NamesFit(encoded) && s.transit == []
    ensures CanRun(s, steps) && Inv(encoded, Run(s, steps))
    ensures Quiet(Run(s, steps)) && Run(s, steps).workers == s.workers
    decreases |s.inbox|
  {
    hide Balanced, Framed, ReadFront, Wire, Enabled, Apply, Flight, IsFor;
    steps := [];
    if s.inbox != [] {
      InboxIsWhole(s);
      StepKeepsInv(encoded, s, Deliver);
      DeliverHandsOn(encoded, s);
      WireNotEmpty(Flight(s)[0]);
      OneStep(s, Deliver);
      var more := CanDeliver(encoded, Apply(s, Deliver));
      RunAppend(s, [Deliver], more);
      steps := [Deliver] + more;
    }
  }

  lemma WireNotEmpty(m: Message)
    ensures Wire(m) != []
  {
  }

  lemma CanDrain(encoded: map<cstring, seq<seq<byte>>>, s: State) returns (steps: seq<Step>)
    requires Inv(encoded, s) && NamesFit(encoded)
    ensures CanRun(s, steps) && Inv(encoded, Run(s, steps))
    ensures Quiet(Run(s, steps)) && Run(s, steps).workers == s.workers
  {
    hide Inv, Flight, Apply;
    var move := Transfer(|s.transit|);
    StepKeepsInv(encoded, s, move);
    TransferMovesOldest(s, |s.transit|);
    OneStep(s, move);
    var more := CanDeliver(encoded, Apply(s, move));
    RunAppend(s, [move], more);
    steps := [move] + more;
  }

  /** A stream can be brought to its end while the other workers rest. */
  lemma {:induction false} CanFinishStream(encoded: map<cstring, seq<seq<byte>>>, s: State, name: cstring)
    returns (steps: seq<Step>)
    requires Inv(encoded, s) && NamesFit(encoded) && Quiet(s) && name in s.workers
    ensures CanRun(s, steps) && Inv(encoded, Run(s, steps))
    ensures Quiet(Run(s, steps)) && Run(s, steps).workers == s.workers[name := Worker([], [])]
    decreases |s.workers[name].later|, |s.workers[name].queued|
  {
    hide Inv, Flight, Apply, Wire;
    var w := s.workers[name];
    steps := [];
    if w.queued == [] && w.later == [] {
      assert s.workers[name := Worker([], [])] == s.workers;
      return;
    }
    var step := if w.queued != [] then Send(name) else Encode(name);
    if w.queued != [] {
      SendPutsInFlight(encoded, s, name);
    } else {
      EncodeQueuesNext(s, name);
    }
    StepKeepsInv(encoded, s, step);
    OneStep(s, step);
    var drain := CanDrain(encoded, Apply(s, step));
    var t := Run(Apply(s, step), drain);
    var more := CanFinishStream(encoded, t, name);
    RunAppend(s, [step], drain);
    RunAppend(s, [step] + drain, more);
    steps := [step] + drain + more;
  }

  /** All the streams named can. */
  lemma {:induction false} CanFinishAll(encoded: map<cstring, seq<seq<byte>>>, s: State, names: set<cstring>)
    returns (steps: seq<Step>)
    requires Inv(encoded, s) && NamesFit(encoded) && Quiet(s) && names <= s.workers.Keys
    requires forall name :: name in s.workers && name !in names ==> s.workers[name] == Worker([], [])
    ensures CanRun(s, steps) && Inv(encoded, Run(s, steps)) && Quiet(Run(s, steps))
    ensures var t := Run(s, steps);
      t.workers.Keys == s.workers.Keys && forall name :: name in t.workers ==> t.workers[name] == Worker([], [])
    decreases |names|
  {
    hide Inv;
    steps := [];
    if names != {} {
      var name :| name in names;
      var first := CanFinishStream(encoded, s, name);
      var more := CanFinishAll(encoded, Run(s, first), names - {name});
      RunAppend(s, first, more);
      steps := first + more;
    }
  }

  /** Every run can go on until every stream has finished, and each decoder has then been called
      with all pieces of its own stream's frames. */
  lemma EveryRunCanFinish(encoded: map<cstring, seq<seq<byte>>>, steps: seq<Step>) returns (more: seq<Step>)
    requires NamesFit(encoded) && CanRun(Initial(encoded), steps)
    ensures CanRun(Initial(encoded), steps + more)
    ensures var s := Run(Initial(encoded), steps + more);
      forall name :: name in encoded ==>
        name in s.workers && Finished(s, name) && name in s.calls && s.calls[name] == FrameChunks(encoded[name])
  {
    hide Inv, Apply, Enabled, FrameChunks;
    InitialInv(encoded);
    RunKeepsInv(encoded, Initial(encoded), steps);
    var s := Run(Initial(encoded), steps);
    var drain := CanDrain(encoded, s);
    RunAppend(Initial(encoded), steps, drain);
    var t := Run(s, drain);
    var rest := CanFinishAll(encoded, t, t.workers.Keys);
    RunAppend(Initial(encoded), steps + drain, rest);
    more := drain + rest;
    assert steps + drain + rest == steps + more;
    forall name | name in encoded
      ensures var u := Run(Initial(encoded), steps + more);
        name in u.workers && Finished(u, name) && name in u.calls && u.calls[name] == FrameChunks(encoded[name])
    {
      DecoderCalls(encoded, steps + more, name);
    }
  }

  /** In every run, at every moment, each decoder has been called with exactly the first pieces
      of its own stream's frames, in order and nothing else, and finally with all of them. */
  lemma DecoderCalls(encoded: map<cstring, seq<seq<byte>>>, steps: seq<Step>, name: cstring)
    requires NamesFit(encoded) && name in encoded && CanRun(Initial(encoded), steps)
    ensures var s := Run(Initial(encoded), steps);
      && name in s.workers && name in s.calls
      && s.calls[name] <= FrameChunks(encoded[name])
      && (Finished(s, name) ==> s.calls[name] == FrameChunks(encoded[name]))
  {
    hide ParseStream, WireAll, FrameChunks, Sendable, Wire, Framed, Enabled, Apply;
    InitialInv(encoded);
    RunKeepsInv(encoded, Initial(encoded), steps);
    var s := Run(Initial(encoded), steps);
    assert Balanced(encoded[name], s.calls[name], Flight(s), s.workers[name], name);
    if Finished(s, name) {
      assert s.inbox + s.transit == [];
      NothingToParse();
      assert s.calls[name] + [] + ([] + []) == s.calls[name];
      assert Pending(Worker([], [])) == [] by { NothingPending(); }
    }
  }

  lemma NothingToParse()
    ensures ParseStream([]) == []
  {
    NothingThere();
  }

  lemma NothingPending()
    ensures Pending(Worker([], [])) == []
  {
  }

  lemma {:induction false} FrameChunksJoin(frames: seq<seq<byte>>)
    ensures Flatten(FrameChunks(frames)) == Flatten(frames)
  {
    if frames != [] {
      ChunksJoin(PAYLOAD_BUFFER_SIZE, frames[0]);
      FrameChunksJoin(frames[1..]);
      FlattenAppend(Chunks(PAYLOAD_BUFFER_SIZE, frames[0]), FrameChunks(frames[1..]));
    }
  }

  /** Raw streams, end to end: at every moment of every run the frames a client's decoder has
      completed in the calls made to it are the first frames its own stream's worker encoded, in
      order and byte for byte; when everything has arrived they are all of them, with nothing
      left over. */
  lemma RawEndToEnd(encoded: map<cstring, seq<seq<byte>>>, steps: seq<Step>, name: cstring, imageSize: nat)
    requires NamesFit(encoded) && name in encoded && CanRun(Initial(encoded), steps)
    requires imageSize > 0 && forall frame :: frame in encoded[name] ==> |frame| == imageSize
    ensures var s := Run(Initial(encoded), steps);
      && name in s.workers && name in s.calls
      && var (completed, partial) := Decoders.RawCalls(imageSize, [], s.calls[name]);
      && completed <= encoded[name]
      && (Finished(s, name) ==> completed == encoded[name] && partial == [])
  {
    DecoderCalls(encoded, steps, name);
    var s, frames := Run(Initial(encoded), steps), encoded[name];
    var calls, all := s.calls[name], FrameChunks(frames);
    hide Run, FrameChunks;
    FrameChunksJoin(frames);
    BlocksOfFrames(imageSize, frames);
    assert all == calls + all[|calls|..];
    FlattenAppend(calls, all[|calls|..]);
    BlocksPrefix(imageSize, Flatten(calls), Flatten(all));
    Decoders.RawCallsWhole(imageSize, [], calls);
    assert [] + Flatten(calls) == Flatten(calls);
  }

  lemma {:induction false} SenderCallsAreChunks(frames: seq<seq<byte>>, encoded: seq<seq<byte>>)
    requires |frames| == |encoded| && forall i :: 0 <= i < |frames| ==> encoded[i] == Jpeg.Framed(frames[i])
    ensures JpegStreams.SenderCalls(PAYLOAD_BUFFER_SIZE, frames) == FrameChunks(encoded)
  {
    if frames != [] {
      SenderCallsAreChunks(frames[1..], encoded[1..]);
    }
  }

  /** JPEG streams, end to end: the same for the compressed frames handed to libjpeg, whatever
      the sizes of the pieces the network made of them. */
  lemma JpegEndToEnd(encoded: map<cstring, seq<seq<byte>>>, steps: seq<Step>, name: cstring, frames: seq<seq<byte>>)
    requires NamesFit(encoded) && name in encoded && CanRun(Initial(encoded), steps)
    requires |frames| == |encoded[name]|
    requires forall i :: 0 <= i < |frames| ==>
      0 < |frames[i]| < Jpeg.MAX_LENGTH && encoded[name][i] == Jpeg.Framed(frames[i])
    ensures var s := Run(Initial(encoded), steps);
      && name in s.workers && name in s.calls
      && var decoded := JpegStreams.DecodeCalls(Jpeg.State(0, [], 0), s.calls[name]);
      && decoded.Done? && decoded.frames <= frames
      && (Finished(s, name) ==> decoded.frames == frames)
  {
    DecoderCalls(encoded, steps, name);
    var calls, all := Run(Initial(encoded), steps).calls[name], FrameChunks(encoded[name]);
    var start := Jpeg.State(0, [], 0);
    SenderCallsAreChunks(frames, encoded[name]);
    JpegStreams.SenderDiscipline(start, PAYLOAD_BUFFER_SIZE, frames);
    assert all == calls + all[|calls|..];
    JpegStreams.CallsPrefix(start, calls, all[|calls|..]);
    JpegStreams.CallsAppend(start, calls, all[|calls|..]);
  }
}
