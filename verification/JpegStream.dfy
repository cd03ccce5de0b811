/** What reassembly in lib/encodings/jpeg.c is for: the frames of a stream of length-prefixed
    frames, and which calls of decode keep up with it. */
module JpegStreams {
  import Arithmetic
  import opened Bytes
  import opened Packing
  import opened Encoders
  import opened Jpeg

  /** Reading a stream of framed frames, however it was cut into calls: the whole frames at its
      front and the bytes of the one after them. Frames of length 0 carry nothing. */
  function FramesIn(stream: seq<byte>): (r: (seq<seq<byte>>, seq<byte>))
    decreases |stream|
  {
    if |stream| < 4 then ([], stream) else
    var length, rest := Get32(stream), stream[4..];
    if length == 0 then FramesIn(rest)
    else if |rest| < length then ([], stream)
    else
      var (frames, left) := FramesIn(rest[length..]);
      ([rest[..length]] + frames, left)
  }

  /** The state stands for an unfinished frame of which the stream has shown `left`. */
  ghost predicate Holds(s: State, left: seq<byte>) {
    if s.needed == 0 then left == []
    else
      && |s.received| < s.needed <= s.capacity && s.needed < MAX_LENGTH
      && left == Put32(s.needed) + s.received
  }

  /** No frame length is cut off at the end of the data, which starts at a frame boundary. */
  predicate LengthsWhole(data: seq<byte>)
    decreases |data|
  {
    data == [] ||
    (|data| >= 4 &&
     var length, rest := Get32(data), data[4..];
     |rest| <= length || LengthsWhole(rest[length..]))
  }

  /** What a caller can see before the call: data that continues a frame stops at its end, and
      otherwise no frame length is cut off. */
  predicate CallFits(s: State, data: seq<byte>) {
    if s.needed == 0 then LengthsWhole(data)
    else if s.received != [] then |data| <= s.needed - |s.received|
    else |data| <= s.needed || LengthsWhole(data[s.needed..])
  }

  /** The call keeps up with the stream: it faults nowhere, hands over exactly the frames the
      data completes, and holds exactly what follows them. */
  ghost predicate Exact(s: State, left: seq<byte>, data: seq<byte>) {
    match DecodeData(s, data)
    case Fault => false
    case Done(s', frames) =>
      frames == FramesIn(left + data).0 && Holds(s', FramesIn(left + data).1)
  }

  /** More bytes were taken for the frame than it has. */
  predicate Beyond(s: State) {
    0 < s.needed < |s.received|
  }

  /** From there the decoder never recovers. */
  lemma {:induction false} Overtaken(s: State, data: seq<byte>)
    requires Beyond(s)
    ensures DecodeData(s, data) == Fault || (DecodeData(s, data).frames == [] && Beyond(DecodeData(s, data).state))
    decreases |data|
  {
    if data != [] {
      var chunkSize := Min(|data|, s.needed);
      var received := s.received + data[..chunkSize];
      if |received| <= s.capacity {
        Overtaken(s.(received := received), data[chunkSize..]);
      }
    }
  }

  lemma FramesInUnfinished(s: State, left: seq<byte>, data: seq<byte>)
    requires Holds(s, left) && s.needed > 0
    ensures var missing := s.needed - |s.received|;
      FramesIn(left + data) ==
        if |data| < missing then ([], left + data)
        else ([s.received + data[..missing]] + FramesIn(data[missing..]).0, FramesIn(data[missing..]).1)
  {
    var needed, received := s.needed, s.received;
    var stream, rest := left + data, received + data;
    StreamOfUnfinished(s, left, data);
    hide *;
    FramesInStep(stream, needed);
    if |data| >= needed - |received| {
      SplitBehind(received, data, needed);
    }
  }

  lemma StreamOfUnfinished(s: State, left: seq<byte>, data: seq<byte>)
    requires Holds(s, left) && s.needed > 0
    ensures |s.received| < s.needed
    ensures |left + data| >= 4 && Get32(left + data) == s.needed && (left + data)[4..] == s.received + data
  {
    var rest := s.received + data;
    Get32OfPut32(s.needed, rest);
    assert left + data == Put32(s.needed) + rest;
    hide Put32, Get32;
  }

  lemma SplitBehind(a: seq<byte>, b: seq<byte>, n: nat)
    requires |a| < n <= |a| + |b|
    ensures (a + b)[..n] == a + b[..n - |a|] && (a + b)[n..] == b[n - |a|..]
  {
  }

  lemma FramesInStep(stream: seq<byte>, length: nat)
    requires |stream| >= 4 && Get32(stream) == length > 0
    ensures var rest := stream[4..];
      FramesIn(stream) ==
        if |rest| < length then ([], stream)
        else ([rest[..length]] + FramesIn(rest[length..]).0, FramesIn(rest[length..]).1)
  {
  }

  /** Bytes that do not complete the frame are added to it. */
  lemma ExactWithinFrame(s: State, left: seq<byte>, data: seq<byte>)
    requires Holds(s, left) && s.needed > 0 && data != [] && |data| < s.needed - |s.received|
    ensures Exact(s, left, data)
  {
    FramesInUnfinished(s, left, data);
    hide Put32, FramesIn;
    assert data[..|data|] == data && data[|data|..] == [];
    var s' := s.(received := s.received + data);
    assert DecodeData(s', []) == Done(s', []);
    assert DecodeData(s, data) == DecodeData(s', data[|data|..]);
    assert left + data == Put32(s.needed) + (s.received + data);
  }

  /** Bytes that complete it hand it over, if it is new or they stop at its end. */
  lemma ExactToFrameEnd(s: State, left: seq<byte>, data: seq<byte>)
    requires Holds(s, left) && s.needed > 0 && |data| >= s.needed - |s.received|
    requires s.received == [] || |data| == s.needed - |s.received|
    ensures var missing := s.needed - |s.received|;
      Exact(s, left, data) <==> Exact(State(0, s.received + data[..missing], s.capacity), [], data[missing..])
  {
    var missing := s.needed - |s.received|;
    FramesInUnfinished(s, left, data);
    assert s.needed <= s.capacity;
    hide FramesIn, Holds;
    var s', rest := State(0, s.received + data[..missing], s.capacity), data[missing..];
    assert Min(|data|, s.needed) == missing;
    assert DecodeData(s, data) == Deliver([s'.received], DecodeData(s', rest));
    hide DecodeData;
    assert [] + rest == rest;
    var o := DecodeData(s', rest);
    if o.Done? {
      SameTail(s'.received, o.frames, FramesIn(rest).0);
    }
  }

  lemma SameTail<T>(x: T, a: seq<T>, b: seq<T>)
    ensures [x] + a == [x] + b <==> a == b
  {
    assert ([x] + a)[1..] == a && ([x] + b)[1..] == b;
  }

  /** Between frames, starting with a whole length. */
  lemma ExactAtLength(s: State, data: seq<byte>)
    requires s.needed == 0 && |data| >= 4
    ensures var s' := State(Get32(data), [], Max(s.capacity, Get32(data)));
      var left := if s'.needed == 0 then [] else Put32(s'.needed);
      Holds(s', left) && (Exact(s, [], data) <==> Exact(s', left, data[4..]))
  {
    var length := Get32(data);
    PutOfGet32(data);
    assert [] + data == data;
    if length == 0 {
      assert [] + data[4..] == data[4..];
    } else {
      assert Put32(length) + [] == Put32(length);
      assert Put32(length) + data[4..] == data;
    }
  }

  lemma PutOfGet32(data: seq<byte>)
    requires |data| >= 4
    ensures Put32(Get32(data)) == data[..4]
  {
    Arithmetic.DivModUnique(Get32(data), 0x1_0000, Get16(data), Get16(data[2..]));
    PutOfGet16(data);
    PutOfGet16(data[2..]);
    var low := Get16(data[2..]);
    assert Put16(Get32(data)) == Put16(low) by { Put16Low(Get16(data), low); }
    assert data[..4] == data[..2] + data[2..][..2];
  }

  lemma PutOfGet16(data: seq<byte>)
    requires |data| >= 2
    ensures Put16(Get16(data)) == data[..2]
  {
  }

  lemma Put16Low(high: nat, low: nat)
    requires low < 0x1_0000
    ensures Put16(high * 0x1_0000 + low) == Put16(low)
  {
    var n, h := high * 0x1_0000 + low, high * 0x100 + low / 0x100;
    Arithmetic.DivModUnique(n, 0x100, h, low % 0x100);
    Arithmetic.DivModUnique(h, 0x100, high, low / 0x100);
  }

  /** Between frames, the call is exact exactly when it cuts no length. */
  lemma {:induction false} ExactBetweenFrames(s: State, data: seq<byte>)
    requires s.needed == 0
    ensures Exact(s, [], data) <==> LengthsWhole(data)
    decreases |data|
  {
    if data == [] {
      assert [] + data == [];
    } else if |data| >= 4 {
      var length, rest := Get32(data), data[4..];
      var s' := State(length, [], Max(s.capacity, length));
      ExactAtLength(s, data);
      NextLength(data, length, rest);
      hide Exact, Holds, LengthsWhole, Get32, Put32;
      if length == 0 {
        ExactBetweenFrames(s', rest);
      } else if |rest| <= length {
        if rest == [] {
          NothingMore(s', Put32(length));
        } else if |rest| < length {
          ExactWithinFrame(s', Put32(length), rest);
        } else {
          ExactToFrameEnd(s', Put32(length), rest);
          ExactBetweenFrames(State(0, rest[..length], s'.capacity), rest[length..]);
          NoLengths(rest[length..]);
        }
      } else {
        ExactToFrameEnd(s', Put32(length), rest);
        ExactBetweenFrames(State(0, rest[..length], s'.capacity), rest[length..]);
      }
    }
  }

  lemma NextLength(data: seq<byte>, length: nat, rest: seq<byte>)
    requires |data| >= 4 && length == Get32(data) && rest == data[4..]
    ensures length == 0 ==> (LengthsWhole(data) <==> LengthsWhole(rest))
    ensures |rest| <= length ==> LengthsWhole(data)
    ensures |rest| > length ==> (LengthsWhole(data) <==> LengthsWhole(rest[length..]))
  {
    if length == 0 {
      assert rest[0..] == rest;
    }
  }

  lemma NoLengths(data: seq<byte>)
    requires data == []
    ensures LengthsWhole(data)
  {
  }

  lemma NothingMore(s: State, left: seq<byte>)
    requires Holds(s, left) && s.needed > 0 && |s.received| < s.needed
    ensures Exact(s, left, [])
  {
    FramesInUnfinished(s, left, []);
    assert left + [] == left;
  }

  /** decode keeps up with the stream in exactly those calls whose data fits: it must not run
      past the end of a frame begun in an earlier call, nor cut a frame length in two. */
  lemma DecodeExact(s: State, left: seq<byte>, data: seq<byte>)
    requires Holds(s, left)
    ensures Exact(s, left, data) <==> CallFits(s, data)
  {
    if s.needed == 0 {
      ExactBetweenFrames(s, data);
    } else if data == [] {
      FramesInUnfinished(s, left, data);
      assert left + data == left;
    } else if s.received != [] && |data| > s.needed - |s.received| {
      var chunkSize := Min(|data|, s.needed);
      var received := s.received + data[..chunkSize];
      if |received| <= s.capacity {
        Overtaken(s.(received := received), data[chunkSize..]);
      }
    } else {
      if |data| < s.needed - |s.received| {
        ExactWithinFrame(s, left, data);
      } else {
        ExactToFrameEnd(s, left, data);
        var missing := s.needed - |s.received|;
        ExactBetweenFrames(State(0, s.received + data[..missing], s.capacity), data[missing..]);
      }
    }
  }

  /** A frame length that is cut in two is read past the end of the data. */
  lemma {:induction false} LengthCut(s: State, data: seq<byte>)
    requires s.needed == 0 && !LengthsWhole(data)
    ensures DecodeData(s, data) == Fault
    decreases |data|
  {
    if |data| >= 4 {
      var length, rest := Get32(data), data[4..];
      var s' := State(length, [], Max(s.capacity, length));
      NextLength(data, length, rest);
      assert DecodeData(s, data) == DecodeData(s', rest);
      hide LengthsWhole, Get32;
      if length == 0 {
        LengthCut(s', rest);
      } else {
        LengthCutBehind(s', rest);
      }
    }
  }

  lemma LengthCutBehind(s: State, data: seq<byte>)
    requires 0 < s.needed <= s.capacity && s.needed < |data| && !LengthsWhole(data[s.needed..]) && s.received == []
    ensures DecodeData(s, data) == Fault
    decreases |data|, 0
  {
    assert Min(|data|, s.needed) == s.needed && s.received + data[..s.needed] == data[..s.needed];
    hide LengthsWhole;
    LengthCut(State(0, data[..s.needed], s.capacity), data[s.needed..]);
  }

  /** A call whose data does not fit makes the decoder fault, then or in a later call, or takes
      more bytes for a frame than it has. */
  lemma Misfit(s: State, left: seq<byte>, data: seq<byte>)
    requires Holds(s, left) && !CallFits(s, data)
    ensures DecodeData(s, data) == Fault || Beyond(DecodeData(s, data).state)
  {
    if s.needed == 0 {
      LengthCut(s, data);
    } else if s.received == [] {
      LengthCutBehind(s, data);
    } else {
      var chunkSize := Min(|data|, s.needed);
      var received := s.received + data[..chunkSize];
      if |received| <= s.capacity {
        Overtaken(s.(received := received), data[chunkSize..]);
      }
    }
  }

  /** Any number of calls. */
  function DecodeCalls(s: State, calls: seq<seq<byte>>): Outcome
    decreases |calls|
  {
    if calls == [] then Done(s, [])
    else
      match DecodeData(s, calls[0])
      case Fault => Fault
      case Done(s', frames) => Deliver(frames, DecodeCalls(s', calls[1..]))
  }

  ghost predicate CallsFit(s: State, calls: seq<seq<byte>>)
    decreases |calls|
  {
    calls == [] ||
    (CallFits(s, calls[0]) && DecodeData(s, calls[0]).Done? && CallsFit(DecodeData(s, calls[0]).state, calls[1..]))
  }

  lemma SameLengthField(a: seq<byte>, b: seq<byte>)
    requires |a| >= 4
    ensures Get32(a + b) == Get32(a)
  {
    assert (a + b)[2..] == a[2..] + b;
  }

  /** Reading a stream in two parts is reading it whole. */
  lemma {:induction false} FramesInAppend(a: seq<byte>, b: seq<byte>)
    ensures var (frames, left) := FramesIn(a);
      FramesIn(a + b) == (frames + FramesIn(left + b).0, FramesIn(left + b).1)
    decreases |a|
  {
    hide FramesIn;
    FramesInShort(a);
    if |a| < 4 {
      assert [] + FramesIn(a + b).0 == FramesIn(a + b).0;
    } else {
      var length, rest := Get32(a), a[4..];
      SameLengthField(a, b);
      hide Get32;
      assert (a + b)[4..] == rest + b;
      if length == 0 {
        FramesInShort(a + b);
        FramesInAppend(rest, b);
      } else {
        FramesInStep(a, length);
        if |rest| < length {
          assert [] + FramesIn(a + b).0 == FramesIn(a + b).0;
        } else {
          FramesInStep(a + b, length);
          assert (rest + b)[..length] == rest[..length] && (rest + b)[length..] == rest[length..] + b;
          FramesInAppend(rest[length..], b);
          var f, left := FramesIn(rest[length..]).0, FramesIn(rest[length..]).1;
          assert [rest[..length]] + (f + FramesIn(left + b).0) == [rest[..length]] + f + FramesIn(left + b).0;
        }
      }
    }
  }

  lemma FramesInShort(stream: seq<byte>)
    ensures |stream| < 4 ==> FramesIn(stream) == ([], stream)
    ensures |stream| >= 4 && Get32(stream) == 0 ==> FramesIn(stream) == FramesIn(stream[4..])
  {
  }

  /** The run keeps up with the stream: it faults nowhere, hands over exactly the frames of the
      stream read whole, and holds exactly what follows them. */
  ghost predicate RunKeepsUp(s: State, left: seq<byte>, calls: seq<seq<byte>>) {
    match DecodeCalls(s, calls)
    case Fault => false
    case Done(s', frames) =>
      frames == FramesIn(left + Flatten(calls)).0 && Holds(s', FramesIn(left + Flatten(calls)).1)
  }

  lemma {:induction false} OvertakenRun(s: State, calls: seq<seq<byte>>)
    requires Beyond(s)
    ensures DecodeCalls(s, calls) == Fault || Beyond(DecodeCalls(s, calls).state)
    decreases |calls|
  {
    hide DecodeData;
    if calls != [] {
      Overtaken(s, calls[0]);
      if DecodeData(s, calls[0]).Done? {
        OvertakenRun(DecodeData(s, calls[0]).state, calls[1..]);
      }
    }
  }

  lemma MisfitRun(s: State, left: seq<byte>, calls: seq<seq<byte>>)
    requires Holds(s, left) && calls != [] && !CallFits(s, calls[0])
    ensures !RunKeepsUp(s, left, calls)
  {
    Misfit(s, left, calls[0]);
    hide DecodeData, CallFits, FramesIn;
    if DecodeData(s, calls[0]).Done? {
      OvertakenRun(DecodeData(s, calls[0]).state, calls[1..]);
    }
  }

  lemma FirstFits(s: State, left: seq<byte>, calls: seq<seq<byte>>)
    returns (s': State, left': seq<byte>)
    requires Holds(s, left) && calls != [] && CallFits(s, calls[0])
    ensures Holds(s', left') && (CallsFit(s, calls) <==> CallsFit(s', calls[1..]))
    ensures RunKeepsUp(s, left, calls) <==> RunKeepsUp(s', left', calls[1..])
  {
    var frames;
    s', left', frames := FitStep(s, left, calls[0]);
    var rest, more := calls[1..], Flatten(calls[1..]);
    FramesInAppend(left + calls[0], more);
    hide CallFits, DecodeData, FramesIn, Holds;
    SameStream(left, calls);
    var last := DecodeCalls(s', rest);
    assert DecodeCalls(s, calls) == Deliver(frames, last);
    if last.Done? {
      SameBehind(frames, last.frames, FramesIn(left' + more).0);
    }
  }

  /** A call that fits, as DecodeExact has it. */
  lemma FitStep(s: State, left: seq<byte>, data: seq<byte>)
    returns (s': State, left': seq<byte>, frames: seq<seq<byte>>)
    requires Holds(s, left) && CallFits(s, data)
    ensures DecodeData(s, data) == Done(s', frames) && FramesIn(left + data) == (frames, left') && Holds(s', left')
  {
    DecodeExact(s, left, data);
    s', left', frames := DecodeData(s, data).state, FramesIn(left + data).1, DecodeData(s, data).frames;
  }

  lemma SameStream(left: seq<byte>, calls: seq<seq<byte>>)
    requires calls != []
    ensures left + calls[0] + Flatten(calls[1..]) == left + Flatten(calls)
  {
  }

  lemma SameBehind<T>(x: seq<T>, a: seq<T>, b: seq<T>)
    ensures x + a == x + b <==> a == b
  {
    assert (x + a)[|x|..] == a && (x + b)[|x|..] == b;
  }

  lemma {:induction false} RunExactByState(s: State, left: seq<byte>, calls: seq<seq<byte>>)
    requires Holds(s, left)
    ensures RunKeepsUp(s, left, calls) <==> CallsFit(s, calls)
    decreases |calls|
  {
    if calls == [] {
      assert left + Flatten(calls) == left;
      HoldsNothingWhole(s, left);
    } else if CallFits(s, calls[0]) {
      var s', left' := FirstFits(s, left, calls);
      hide *;
      RunExactByState(s', left', calls[1..]);
    } else {
      MisfitRun(s, left, calls);
    }
  }

  /** What a sender can see: the call finds `left` of the stream unfinished. Behind nothing but a
      frame's length it may bring more frames, behind a part of the frame only the rest of that;
      and no frame length is cut off. */
  predicate PieceFits(left: seq<byte>, data: seq<byte>) {
    if |left| < 4 then left == [] && LengthsWhole(data)
    else
      var length := Get32(left);
      if |left| == 4 then |data| <= length || LengthsWhole(data[length..]) else |left| + |data| <= 4 + length
  }

  /** The pieces a stream is cut into, each with what is left unfinished by those in front. */
  predicate PiecesFit(left: seq<byte>, calls: seq<seq<byte>>)
    decreases |calls|
  {
    calls == [] || (PieceFits(left, calls[0]) && PiecesFit(FramesIn(left + calls[0]).1, calls[1..]))
  }

  lemma PieceFitsAlike(s: State, left: seq<byte>, data: seq<byte>)
    requires Holds(s, left)
    ensures PieceFits(left, data) <==> CallFits(s, data)
  {
    hide Get32, LengthsWhole;
    if s.needed > 0 {
      HeldLength(s, left);
    }
  }

  lemma HeldLength(s: State, left: seq<byte>)
    requires Holds(s, left) && s.needed > 0
    ensures |left| == 4 + |s.received| && Get32(left) == s.needed
  {
    hide Put32, Get32;
    Get32OfPut32(s.needed, s.received);
  }

  lemma {:induction false} PiecesFitAlike(s: State, left: seq<byte>, calls: seq<seq<byte>>)
    requires Holds(s, left)
    ensures PiecesFit(left, calls) <==> CallsFit(s, calls)
    decreases |calls|
  {
    hide Holds, CallFits, PieceFits, DecodeData, FramesIn;
    if calls != [] {
      PieceFitsAlike(s, left, calls[0]);
      if CallFits(s, calls[0]) {
        var s', left', _ := FitStep(s, left, calls[0]);
        PiecesFitAlike(s', left', calls[1..]);
      }
    }
  }

  /** A run keeps up with the whole stream exactly when each of its calls fits what is left of the
      stream there. */
  lemma RunExact(s: State, left: seq<byte>, calls: seq<seq<byte>>)
    requires Holds(s, left)
    ensures RunKeepsUp(s, left, calls) <==> PiecesFit(left, calls)
  {
    RunExactByState(s, left, calls);
    PiecesFitAlike(s, left, calls);
  }

  lemma HoldsNothingWhole(s: State, left: seq<byte>)
    requires Holds(s, left)
    ensures FramesIn(left) == ([], left)
  {
    if s.needed > 0 {
      FramesInUnfinished(s, left, []);
      assert left + [] == left;
    }
  }

  /** The calls a sender causes that drains every frame through a buffer of `size` bytes before
      it encodes the next. */
  function SenderCalls(size: nat, frames: seq<seq<byte>>): seq<seq<byte>>
    requires size > 0
  {
    if frames == [] then [] else Chunks(size, Framed(frames[0])) + SenderCalls(size, frames[1..])
  }

  lemma {:induction false} RestOfFrameFits(s: State, left: seq<byte>, size: nat, data: seq<byte>)
    requires Holds(s, left) && s.needed > 0 && size > 0 && |data| <= s.needed - |s.received|
    ensures CallsFit(s, Chunks(size, data))
    decreases |data|
  {
    if data != [] {
      var k := Min(size, |data|);
      var chunk, rest := data[..k], data[k..];
      assert Chunks(size, data)[0] == chunk && Chunks(size, data)[1..] == Chunks(size, rest);
      DecodeExact(s, left, chunk);
      FramesInUnfinished(s, left, chunk);
      var s' := DecodeData(s, chunk).state;
      if k < s.needed - |s.received| {
        SameNeeded(s, left, s', chunk);
        RestOfFrameFits(s', left + chunk, size, rest);
      }
    }
  }

  lemma SameNeeded(s: State, left: seq<byte>, s': State, chunk: seq<byte>)
    requires Holds(s, left) && Holds(s', left + chunk) && s.needed > 0
    ensures s'.needed == s.needed && |s'.received| == |s.received| + |chunk|
  {
    Get32OfPut32(s.needed, s.received + chunk);
    if s'.needed > 0 {
      Get32OfPut32(s'.needed, s'.received);
    }
    hide Put32, Get32;
    assert left + chunk == Put32(s.needed) + (s.received + chunk);
  }

  lemma FramedTake(frame: seq<byte>, k: nat)
    requires |frame| < MAX_LENGTH && 4 <= k <= 4 + |frame|
    ensures |Framed(frame)| == 4 + |frame|
    ensures var part := Framed(frame)[..k];
      part == Put32(|frame|) + frame[..k - 4] && Get32(part) == |frame| && part[4..] == frame[..k - 4]
  {
    hide Put32, Get32;
    Get32OfPut32(|frame|, frame[..k - 4]);
    assert Framed(frame)[..k] == Put32(|frame|) + frame[..k - 4];
  }

  lemma FramedLength(frame: seq<byte>)
    ensures |Framed(frame)| == 4 + |frame|
  {
  }

  lemma FrameFits(s: State, size: nat, frame: seq<byte>)
    requires s.needed == 0 && size >= 4 && 0 < |frame| < MAX_LENGTH
    ensures CallsFit(s, Chunks(size, Framed(frame)))
  {
    var data := Framed(frame);
    var k := Min(size, |data|);
    var chunk, rest := data[..k], data[k..];
    FramedTake(frame, k);
    hide Put32, Get32, FramesIn, Framed;
    assert LengthsWhole(chunk);
    hide LengthsWhole;
    DecodeExact(s, [], chunk);
    assert [] + chunk == chunk;
    var s' := DecodeData(s, chunk).state;
    assert Chunks(size, data)[0] == chunk && Chunks(size, data)[1..] == Chunks(size, rest);
    if k < |data| {
      FramesInPart(frame, chunk);
      SameLength(s', chunk, frame);
      RestOfFrameFits(s', chunk, size, rest);
    } else {
      assert Chunks(size, rest) == [];
    }
    assert CallsFit(s', Chunks(size, rest));
  }

  lemma FramesInWhole(frame: seq<byte>)
    requires 0 < |frame| < MAX_LENGTH
    ensures FramesIn(Framed(frame)) == ([frame], [])
  {
    var data := Framed(frame);
    Get32OfPut32(|frame|, frame);
    FramesInStep(data, |frame|);
    hide Put32, Get32;
    var rest := data[4..];
    assert rest == frame && rest[..|frame|] == frame && rest[|frame|..] == [];
    assert FramesIn([]) == ([], []);
    assert [frame] + [] == [frame];
  }

  lemma FramesInPart(frame: seq<byte>, part: seq<byte>)
    requires 0 < |frame| < MAX_LENGTH && part <= Framed(frame) && |part| < |Framed(frame)|
    ensures FramesIn(part) == ([], part)
  {
    if |part| >= 4 {
      FramedTake(frame, |part|);
      hide Put32, Get32, Framed;
      FramesInStep(part, |frame|);
    }
  }

  lemma SameLength(s: State, part: seq<byte>, frame: seq<byte>)
    requires 0 < |frame| < MAX_LENGTH && Holds(s, part) && part <= Framed(frame) && |part| >= 4
    ensures s.needed == |frame| && 4 + |s.received| == |part|
  {
    hide Get32, Framed;
    FramedLength(frame);
    FramedTake(frame, |part|);
    assert part == Framed(frame)[..|part|];
    if s.needed > 0 {
      HeldLength(s, part);
    }
  }

  lemma {:induction false} CallsAppend(s: State, a: seq<seq<byte>>, b: seq<seq<byte>>)
    requires DecodeCalls(s, a).Done?
    ensures DecodeCalls(s, a + b) == Deliver(DecodeCalls(s, a).frames, DecodeCalls(DecodeCalls(s, a).state, b))
    decreases |a|
  {
    hide DecodeData;
    if a == [] {
      assert a + b == b;
      DeliverNone(DecodeCalls(s, b));
    } else {
      assert (a + b)[0] == a[0] && (a + b)[1..] == a[1..] + b;
      var first := DecodeData(s, a[0]);
      CallsAppend(first.state, a[1..], b);
      var rest, last := DecodeCalls(first.state, a[1..]), DecodeCalls(DecodeCalls(s, a).state, b);
      if last.Done? {
        assert first.frames + (rest.frames + last.frames) == first.frames + rest.frames + last.frames;
      }
    }
  }

  lemma {:induction false} CallsPrefix(s: State, a: seq<seq<byte>>, b: seq<seq<byte>>)
    requires DecodeCalls(s, a + b).Done?
    ensures DecodeCalls(s, a).Done?
    decreases |a|
  {
    hide DecodeData;
    if a != [] {
      assert (a + b)[0] == a[0] && (a + b)[1..] == a[1..] + b;
      CallsPrefix(DecodeData(s, a[0]).state, a[1..], b);
    }
  }

  /** Under the sender's discipline reassembly is exact: the frames handed to libjpeg are the
      frames that were compressed, in order, and the decoder is between frames again. */
  lemma {:induction false} SenderDiscipline(s: State, size: nat, frames: seq<seq<byte>>)
    requires s.needed == 0 && size >= 4
    requires forall f :: f in frames ==> 0 < |f| < MAX_LENGTH
    ensures DecodeCalls(s, SenderCalls(size, frames)).Done?
    ensures DecodeCalls(s, SenderCalls(size, frames)).frames == frames
    ensures DecodeCalls(s, SenderCalls(size, frames)).state.needed == 0
    decreases |frames|
  {
    hide DecodeData, Framed, Chunks;
    if frames != [] {
      var calls, more := Chunks(size, Framed(frames[0])), SenderCalls(size, frames[1..]);
      FrameFits(s, size, frames[0]);
      FramesInWhole(frames[0]);
      ChunksJoin(size, Framed(frames[0]));
      assert [] + Framed(frames[0]) == Framed(frames[0]);
      RunExactByState(s, [], calls);
      CallsAppend(s, calls, more);
      SenderDiscipline(DecodeCalls(s, calls).state, size, frames[1..]);
    }
  }

  /** Without it, it is not: two frames sent back to back and cut every five bytes. */
  lemma BackToBackFaults()
    ensures DecodeCalls(State(0, [], 0), Chunks(5, Framed([1, 2]) + Framed([3]))) == Fault
  {
    var stream := Framed([1, 2]) + Framed([3]);
    assert stream == [0, 0, 0, 2, 1, 2, 0, 0, 0, 1, 3];
    assert Chunks(5, stream)[0] == [0, 0, 0, 2, 1];
    assert stream[5..] == [2, 0, 0, 0, 1, 3] && Chunks(5, stream)[1..] == Chunks(5, stream[5..]);
    assert Chunks(5, stream[5..])[0] == [2, 0, 0, 0, 1];
    var s := State(2, [1], 2);
    assert DecodeData(State(0, [], 0), [0, 0, 0, 2, 1]) == Done(s, []) by {
      assert [0, 0, 0, 2, 1][4..] == [1] && [1][..1] == [1] && [1][1..] == [];
      assert Get32([0, 0, 0, 2, 1]) == 2;
      assert DecodeData(State(2, [], 2), [1]) == DecodeData(s, []);
    }
    assert DecodeData(s, [2, 0, 0, 0, 1]) == Fault;
  }
}
