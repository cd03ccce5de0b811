/** lib/net.c and the receive loop of lib/comm.c: messages over a byte stream whose transfers
    may be partial or fail. */
module Net {
  import opened Bytes
  import opened Packing
  import opened Messages

  /** A connected socket. `plan` decides what each transfer does: an entry k > 0 moves at most
      k bytes, any other entry (or none left) is an error. */
  class Socket {
    var sent: seq<byte>
    var incoming: seq<byte>
    var plan: seq<int>

    constructor (incoming: seq<byte>, plan: seq<int>)
      ensures this.incoming == incoming && this.plan == plan && sent == []
    {
      this.incoming, this.plan, sent := incoming, plan, [];
    }

    /** Every transfer asked for while bytes are left to receive succeeds. */
    ghost predicate Reliable()
      reads this
    {
      |plan| >= |incoming| && forall i :: 0 <= i < |plan| ==> plan[i] > 0
    }

    method Send(data: seq<byte>) returns (n: int)
      requires data != []
      modifies this`sent, this`plan
      ensures n < 0 ==> sent == old(sent)
      ensures n >= 0 ==> 0 < n <= |data| && sent == old(sent) + data[..n]
    {
      if plan == [] || plan[0] <= 0 {
        n := -1;
      } else {
        n := Min(plan[0], |data|);
        sent := sent + data[..n];
      }
      plan := if plan == [] then [] else plan[1..];
    }

    /** recv(2): 0 when the peer has shut down and nothing is left. */
    method Recv(len: nat) returns (n: int, data: seq<byte>)
      requires len > 0
      modifies this`incoming, this`plan
      ensures n <= 0 ==> incoming == old(incoming)
      ensures n > 0 ==> n == |data| <= len && data + incoming == old(incoming)
      ensures old(Reliable()) ==> Reliable() && (n > 0 <==> old(incoming) != [])
    {
      data := [];
      if incoming == [] {
        n := 0;
      } else if plan == [] || plan[0] <= 0 {
        n, plan := -1, if plan == [] then [] else plan[1..];
      } else {
        n := Min(plan[0], Min(len, |incoming|));
        data, incoming, plan := incoming[..n], incoming[n..], plan[1..];
      }
    }

    /** recv(2) with MSG_PEEK and MSG_WAITALL: all or nothing, and nothing is consumed. */
    method Peek(len: nat) returns (data: seq<byte>)
      ensures data == if |incoming| < len then [] else incoming[..len]
    {
      data := if |incoming| < len then [] else incoming[..len];
    }
  }

  /** One of the two sending loops of SVR_Net_sendPackedMessage. */
  method SendAll(socket: Socket, data: seq<byte>) returns (ok: bool)
    modifies socket`sent, socket`plan
    ensures ok ==> socket.sent == old(socket.sent) + data
    ensures old(socket.sent) <= socket.sent <= old(socket.sent) + data
  {
    var sentBytes := 0;
    while sentBytes < |data|
      invariant 0 <= sentBytes <= |data|
      invariant socket.sent == old(socket.sent) + data[..sentBytes]
    {
      var n := socket.Send(data[sentBytes..]);
      if n < 0 {
        return false;
      }
      SliceAppend(data, sentBytes, n);
      assert data[sentBytes..][..n] == data[sentBytes..sentBytes + n];
      sentBytes := sentBytes + n;
    }
    assert data[..sentBytes] == data;
    ok := true;
  }

  /** SVR_Net_sendMessage: all bytes of the message, or an error after some of them. */
  method SendMessage(socket: Socket, m: Message) returns (n: int)
    requires Sendable(m)
    modifies socket`sent, socket`plan
    ensures n >= 0 ==> n == |Wire(m)| && socket.sent == old(socket.sent) + Wire(m)
    ensures old(socket.sent) <= socket.sent <= old(socket.sent) + Wire(m)
  {
    var packed := Messages.Pack(m);
    var ok := SendAll(socket, packed.data);
    assert old(socket.sent) + packed.data + m.payload == old(socket.sent) + Wire(m);
    if !ok { return -1; }
    ok := SendAll(socket, m.payload);
    if !ok { return -1; }
    n := |packed.data| + |m.payload|;
  }

  /** SVR_Net_recv: exactly len bytes, unless the stream ends or a transfer fails first. */
  method RecvAll(socket: Socket, len: nat) returns (n: int, data: seq<byte>)
    modifies socket`incoming, socket`plan
    ensures n > 0 ==> n == len == |data| && data + socket.incoming == old(socket.incoming)
    ensures n == 0 && len == 0 ==> socket.incoming == old(socket.incoming)
    ensures old(socket.Reliable()) ==> socket.Reliable()
    ensures old(socket.Reliable()) && len > 0 ==> (n > 0 <==> len <= |old(socket.incoming)|)
  {
    var read := 0;
    data := [];
    while read < len
      invariant 0 <= read == |data| <= len
      invariant data + socket.incoming == old(socket.incoming)
      invariant old(socket.Reliable()) ==> socket.Reliable()
    {
      var more;
      n, more := socket.Recv(len - read);
      if n <= 0 {
        return;
      }
      data := data + more;
      read := read + n;
    }
    n := read;
  }

  datatype Receipt = Closed | Malformed | Received(message: Message)

  /** What is at the front of a byte stream: a whole message with its payload, or not. */
  datatype Front = Incomplete | Whole(message: Message, rest: seq<byte>)

  function ReadFront(s: seq<byte>): (r: Front)
    ensures r.Whole? ==> |r.rest| < |s|
  {
    if |s| < 2 || |s| < Get16(s) + PREFIX_LENGTH then Incomplete else
    match UnpackedMessage(s[..Get16(s) + PREFIX_LENGTH])
    case ReadPastEnd => Incomplete
    case Read(m) =>
      var rest := s[Get16(s) + PREFIX_LENGTH..];
      if |rest| < m.payloadSize then Incomplete
      else Whole(m.(payload := rest[..m.payloadSize]), rest[m.payloadSize..])
  }

  /** The whole messages at the front of a byte stream. */
  function ParseStream(s: seq<byte>): seq<Message>
    decreases |s|
  {
    match ReadFront(s)
    case Incomplete => []
    case Whole(m, rest) => [m] + ParseStream(rest)
  }

  /** SVR_Net_receiveMessage: a message without its payload. */
  method ReceiveMessage(socket: Socket) returns (r: Receipt)
    modifies socket`incoming, socket`plan
    ensures r.Received? ==>
      var s := old(socket.incoming);
      && |s| >= 2 && |s| >= Get16(s) + PREFIX_LENGTH
      && socket.incoming == s[Get16(s) + PREFIX_LENGTH..]
      && UnpackedMessage(s[..Get16(s) + PREFIX_LENGTH]) == Read(r.message)
    ensures old(socket.Reliable()) ==> socket.Reliable()
    ensures old(socket.Reliable()) && !r.Received? ==>
      var s := old(socket.incoming);
      |s| < 2 || |s| < Get16(s) + PREFIX_LENGTH
      || UnpackedMessage(s[..Get16(s) + PREFIX_LENGTH]) == ReadPastEnd
  {
    var peeked := socket.Peek(2);
    if |peeked| < 2 {
      return Closed;
    }
    var messageLength := Get16(peeked);
    assert messageLength == Get16(socket.incoming);
    var n, bytes := RecvAll(socket, messageLength + PREFIX_LENGTH);
    if n <= 0 {
      return Closed;
    }
    assert bytes == old(socket.incoming)[..messageLength + PREFIX_LENGTH];
    var data := new byte[|bytes|](i requires 0 <= i < |bytes| => bytes[i]);
    assert data[..] == bytes;
    var unpacked := Messages.Unpack(data);
    match unpacked {
      case ReadPastEnd => r := Malformed;
      case Read(m) => r := Received(m);
    }
  }

  /** One round of SVR_Comm_receiveThread: a message and its payload. */
  method ReceiveWhole(socket: Socket) returns (r: Receipt)
    modifies socket`incoming, socket`plan
    ensures r.Received? ==> ReadFront(old(socket.incoming)) == Whole(r.message, socket.incoming)
    ensures old(socket.Reliable()) ==> socket.Reliable()
    ensures old(socket.Reliable()) && !r.Received? ==> ReadFront(old(socket.incoming)) == Incomplete
  {
    r := ReceiveMessage(socket);
    if r.Received? && r.message.payloadSize > 0 {
      var n, payload := RecvAll(socket, r.message.payloadSize);
      if n <= 0 {
        return Closed;
      }
      r := Received(r.message.(payload := payload));
    }
  }

  /** SVR_Comm_receiveThread: receives until the stream ends or fails; `processed` is what it
      handed on, responses to the response set and everything else to the message router. */
  method ReceiveThread(socket: Socket) returns (processed: seq<Message>)
    modifies socket`incoming, socket`plan
    ensures processed <= ParseStream(old(socket.incoming))
    ensures old(socket.Reliable()) ==> processed == ParseStream(old(socket.incoming))
  {
    hide ReadFront;
    processed := [];
    while true
      invariant ParseStream(old(socket.incoming)) == processed + ParseStream(socket.incoming)
      invariant old(socket.Reliable()) ==> socket.Reliable()
      decreases |socket.incoming|
    {
      var receipt := ReceiveWhole(socket);
      if !receipt.Received? {
        break;
      }
      assert processed + ([receipt.message] + ParseStream(socket.incoming))
          == processed + [receipt.message] + ParseStream(socket.incoming);
      processed := processed + [receipt.message];
    }
  }

  function WireAll(messages: seq<Message>): seq<byte> {
    if messages == [] then [] else Wire(messages[0]) + WireAll(messages[1..])
  }

  lemma WireParts(m: Message)
    requires Sendable(m)
    ensures |PackedBytes(m)| == DataLength(m.components) + PREFIX_LENGTH
    ensures Get16(PackedBytes(m)) == DataLength(m.components)
  {
    HeaderLength(m);
    BodyLength(m.components);
    var h := Header(m);
    EncodeAllStep([], h, 0);
    assert h[0..] == h;
    Get16OfPut16(DataLength(m.components), EncodeAll(h[1..]) + Body(m.components));
    assert PackedBytes(m) == Put16(DataLength(m.components) % 0x1_0000) + (EncodeAll(h[1..]) + Body(m.components));
  }

  /** Messages are self-delimiting: whatever follows, the front of the stream is the message
      that was sent, and the stream is left at the next one. */
  lemma ReadFrontOfWire(m: Message, tail: seq<byte>)
    requires Sendable(m)
    ensures ReadFront(Wire(m) + tail) == Whole(m, tail)
  {
    hide Get16, UnpackedMessage, PackedBytes;
    var packed := PackedBytes(m);
    WireParts(m);
    UnpackOfPack(m);
    var s := SplitWire(packed, m.payload, tail);
  }

  /** Where the parts of a message with its payload and a tail lie. */
  lemma SplitWire(packed: seq<byte>, payload: seq<byte>, tail: seq<byte>) returns (s: seq<byte>)
    ensures s == packed + payload + tail && s[..|packed|] == packed
    ensures s[|packed|..][..|payload|] == payload && s[|packed|..][|payload|..] == tail
    ensures |packed| >= 2 ==> Get16(s) == Get16(packed)
  {
    s := packed + payload + tail;
    assert s[|packed|..] == payload + tail;
  }

  /** A proper prefix of a message is not taken for one. */
  lemma ReadFrontOfPart(m: Message, s: seq<byte>)
    requires Sendable(m) && s <= Wire(m) && |s| < |Wire(m)|
    ensures ReadFront(s) == Incomplete
  {
    WireParts(m);
    var packed := PackedBytes(m);
    if |s| >= 2 {
      assert Get16(s) == Get16(packed);
      if |s| >= |packed| {
        assert s[..|packed|] == packed;
        UnpackOfPack(m);
      }
    }
  }

  /** Receiving the concatenation of messages gives exactly the messages. */
  lemma {:induction false} ParseOfWire(messages: seq<Message>, tail: seq<byte>)
    requires forall m :: m in messages ==> Sendable(m)
    ensures ParseStream(WireAll(messages) + tail) == messages + ParseStream(tail)
  {
    hide ReadFront, Wire;
    if messages == [] {
      assert WireAll(messages) + tail == tail;
    } else {
      var rest := WireAll(messages[1..]) + tail;
      ReadFrontOfWire(messages[0], rest);
      assert WireAll(messages) + tail == Wire(messages[0]) + rest;
      ParseOfWire(messages[1..], tail);
    }
  }

  /** At any moment, what has been received is a prefix of what was sent, namely all messages
      whose last byte has arrived. */
  lemma {:induction false} ParseOfPrefix(messages: seq<Message>, s: seq<byte>)
    requires forall m :: m in messages ==> Sendable(m)
    requires s <= WireAll(messages)
    ensures ParseStream(s) <= messages
    ensures WireAll(ParseStream(s)) <= s
    ensures |ParseStream(s)| < |messages| ==> |s| < |WireAll(messages[..|ParseStream(s)| + 1])|
  {
    hide ReadFront, Wire;
    if messages == [] {
      assert ReadFront([]) == Incomplete by { NothingThere(); }
    } else {
      var first, rest := Wire(messages[0]), WireAll(messages[1..]);
      if |s| < |first| {
        assert s <= first;
        ReadFrontOfPart(messages[0], s);
        assert messages[..1] == [messages[0]] && messages[..1][1..] == [];
        assert WireAll(messages[..1]) == first + [];
      } else {
        var tail := s[|first|..];
        assert s == first + tail && tail <= rest;
        ReadFrontOfWire(messages[0], tail);
        ParseOfPrefix(messages[1..], tail);
        var n := |ParseStream(tail)|;
        assert n < |messages| - 1 ==>
          messages[..n + 2][0] == messages[0] && messages[..n + 2][1..] == messages[1..][..n + 1];
        assert ParseStream(s)[1..] == ParseStream(tail);
      }
    }
  }

  lemma NothingThere()
    ensures ReadFront([]) == Incomplete
  {
  }
}
