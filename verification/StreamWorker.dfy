/** server/stream.c: how a worker sends what the encoder holds after one frame. */
module StreamWorkers {
  import opened Bytes
  import opened Encoders
  import opened Packing
  import opened Messages

  const PAYLOAD_BUFFER_SIZE := 8 * 1024

  /** The text "Data". */
  const DATA: cstring := [68, 97, 116, 97]

  function DataMessage(name: cstring, payload: seq<byte>): Message {
    Message(0, [DATA, name], |payload|, payload)
  }

  function DataMessages(name: cstring, payloads: seq<seq<byte>>): (messages: seq<Message>)
    ensures |messages| == |payloads|
  {
    seq(|payloads|, i requires 0 <= i < |payloads| => DataMessage(name, payloads[i]))
  }

  /** Of the pieces `all`, those in front of `left` went out. */
  ghost predicate Sending(name: cstring, all: seq<seq<byte>>, left: seq<seq<byte>>, sent: seq<Message>) {
    |sent| <= |all| && left == all[|sent|..] && sent == DataMessages(name, all)[..|sent|]
  }

  lemma NothingSent(name: cstring, all: seq<seq<byte>>)
    ensures Sending(name, all, all, [])
  {
  }

  lemma OneMoreSent(name: cstring, all: seq<seq<byte>>, left: seq<seq<byte>>, sent: seq<Message>)
    requires Sending(name, all, left, sent) && left != []
    ensures Sending(name, all, left[1..], sent + [DataMessage(name, left[0])]) && |sent| < |all|
  {
    var n := |sent|;
    assert all[n] == left[0] && all[n + 1..] == left[1..];
    assert DataMessages(name, all)[..n + 1] == DataMessages(name, all)[..n] + [DataMessages(name, all)[n]];
  }

  lemma AllSent(name: cstring, all: seq<seq<byte>>, sent: seq<Message>)
    requires Sending(name, all, [], sent)
    ensures sent == DataMessages(name, all)
  {
    assert |sent| == |all| by { assert |all[|sent|..]| == 0; }
  }

  /** The next piece of what the encoder holds. */
  method NextMessage(encoder: Encoder, name: cstring, payloadBuffer: array<byte>) returns (message: Message)
    requires encoder.Valid() && payloadBuffer.Length > 0 && payloadBuffer != encoder.buffer && encoder.Contents() != []
    modifies encoder`readIndex, payloadBuffer
    ensures encoder.Valid()
    ensures var pieces := Chunks(payloadBuffer.Length, old(encoder.Contents()));
      && pieces != [] && message == DataMessage(name, pieces[0])
      && Chunks(payloadBuffer.Length, encoder.Contents()) == pieces[1..]
    ensures |encoder.Contents()| < |old(encoder.Contents())|
  {
    ghost var size, contents, target := payloadBuffer.Length, encoder.Contents(), payloadBuffer[..];
    FirstChunk(size, contents);
    hide Unread, Encoder.Valid, Chunks, Overwrite;
    var payloadSize := encoder.ReadData(payloadBuffer, payloadBuffer.Length);
    OverwriteFront(target, contents[..payloadSize]);
    message := DataMessage(name, payloadBuffer[..payloadSize]);
  }

  lemma FirstChunk(size: nat, s: seq<byte>)
    requires size > 0 && s != []
    ensures var k := Min(size, |s|);
      Chunks(size, s) != [] && Chunks(size, s)[0] == s[..k] && Chunks(size, s)[1..] == Chunks(size, s[k..])
  {
  }

  /** The sending loop of SVRD_Stream_worker, when the client takes the next `accepted`
      messages: all pieces go out in order and the encoder is empty afterwards, unless the
      client is gone, which pauses the stream. */
  method SendEncoded(encoder: Encoder, name: cstring, payloadBuffer: array<byte>, accepted: nat)
    returns (sent: seq<Message>, paused: bool)
    requires encoder.Valid() && payloadBuffer.Length > 0 && payloadBuffer != encoder.buffer
    modifies encoder`readIndex, payloadBuffer
    ensures encoder.Valid()
    ensures var all := DataMessages(name, Chunks(payloadBuffer.Length, old(encoder.Contents())));
      && paused == (accepted < |all|)
      && sent == (if paused then all[..accepted] else all)
    ensures !paused ==> encoder.Contents() == []
  {
    sent, paused := [], false;
    ghost var size, all := payloadBuffer.Length, Chunks(payloadBuffer.Length, encoder.Contents());
    NothingSent(name, all);
    hide Unread, Sending, Encoder.Valid;
    while encoder.DataReady() > 0 && !paused
      invariant encoder.Valid() && |sent| <= accepted
      invariant !paused ==> Sending(name, all, Chunks(size, encoder.Contents()), sent)
      invariant paused ==> |sent| == accepted < |all| && sent == DataMessages(name, all)[..accepted]
      decreases !paused, |encoder.Contents()|
    {
      ghost var left := Chunks(size, encoder.Contents());
      var message := NextMessage(encoder, name, payloadBuffer);
      OneMoreSent(name, all, left, sent);
      if |sent| == accepted {
        paused := true;
        SoFar(name, all, left, sent);
      } else {
        sent := sent + [message];
      }
    }
    if !paused {
      AllSent(name, all, sent);
    }
  }

  lemma SoFar(name: cstring, all: seq<seq<byte>>, left: seq<seq<byte>>, sent: seq<Message>)
    requires Sending(name, all, left, sent)
    ensures sent == DataMessages(name, all)[..|sent|]
  {
  }

  lemma OverwriteFront(s: seq<byte>, t: seq<byte>)
    requires |t| <= |s|
    ensures Overwrite(s, 0, t)[..|t|] == t
  {
  }
}
