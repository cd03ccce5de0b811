/** lib/encodings/jpeg.c: length-prefixed frames and their reassembly. Compression itself is
    opaque: an encoded frame is a byte string and decompression a function on those. */
module Jpeg {
  import opened Bytes
  import opened Geometries
  import opened Encoders
  import opened Decoders
  import opened Packing

  const MAX_LENGTH := 0x1_0000_0000

  function Framed(frame: seq<byte>): seq<byte> {
    Put32(|frame|) + frame
  }

  /** The length goes in front in four bytes, the highest one first. */
  lemma FramedLayout(frame: seq<byte>)
    requires |frame| < MAX_LENGTH
    ensures var s := Framed(frame);
      && |s| == 4 + |frame| && s[4..] == frame
      && (s[0] as int) * 0x100_0000 + (s[1] as int) * 0x1_0000 + (s[2] as int) * 0x100 + s[3] as int == |frame|
  {
    WordOrder(|frame|);
    hide Put32;
  }

  /** term_svr_destination: queues the 32-bit length and the compressed bytes. */
  method TermDestination(encoder: Encoder, frame: seq<byte>)
    requires encoder.Valid() && |frame| < MAX_LENGTH
    modifies encoder, encoder.buffer
    ensures encoder.Valid() && encoder.Contents() == old(encoder.Contents()) + Framed(frame)
  {
    ghost var was := encoder.Contents();
    encoder.ProvideData(Put32(|frame|));
    encoder.ProvideData(frame);
    assert was + Put32(|frame|) + frame == was + Framed(frame);
  }

  /** The reassembly state: the announced length (0 between frames), the bytes received of the
      frame, and the size of the buffer they are in. */
  datatype State = State(needed: nat, received: seq<byte>, capacity: nat)

  /** Fault: the source would read or write outside its buffers. */
  datatype Outcome = Fault | Done(state: State, frames: seq<seq<byte>>)

  function Deliver(frames: seq<seq<byte>>, o: Outcome): Outcome {
    match o
    case Fault => Fault
    case Done(s, more) => Done(s, frames + more)
  }

  /** What one call of decode does with data: the state it leaves and the frames it hands over. */
  function DecodeData(s: State, data: seq<byte>): Outcome
    decreases |data|
  {
    if data == [] then Done(s, [])
    else if s.needed == 0 then
      if |data| < 4 then Fault
      else DecodeData(State(Get32(data), [], Max(s.capacity, Get32(data))), data[4..])
    else
      var chunkSize := Min(|data|, s.needed);
      var received := s.received + data[..chunkSize];
      if |received| > s.capacity then Fault
      else if |received| == s.needed then
        Deliver([received], DecodeData(s.(needed := 0, received := received), data[chunkSize..]))
      else DecodeData(s.(received := received), data[chunkSize..])
  }

  function Decompressed(decompress: seq<byte> -> seq<byte>, frames: seq<seq<byte>>): (images: seq<seq<byte>>)
    ensures |images| == |frames|
  {
    seq(|frames|, i requires 0 <= i < |frames| => decompress(frames[i]))
  }

  /** The scanline loop: hands one decompressed frame to the decoder, row by row. */
  method WriteScanlines(decoder: Decoder, pixels: seq<byte>)
    requires decoder.Valid() && decoder.OutsidePadding() && decoder.PartialPixels() == []
    requires |pixels| == decoder.geometry.frameBytes
    modifies decoder, decoder.FreeData()
    ensures decoder.Valid() && decoder.OutsidePadding() && decoder.KeepsImages()
    ensures decoder.ReadyPixels() == old(decoder.ReadyPixels()) + [pixels]
    ensures decoder.PartialPixels() == []
  {
    hide Scanline, Blocks, Rest, Cutting, Contents, Fits, Distinct, Disjoint, Decoder.ReadyPixels,
      Decoder.PartialPixels, Decoder.OutsidePadding, Decoder.Valid, Geometry.Valid;
    decoder.PartialIsShort();
    var g := decoder.geometry;
    ghost var size, ready := g.frameBytes, decoder.ReadyPixels();
    var r, offset := 0, 0;
    NextScanline(g, 0, 1);
    CutBegin(size, ready, [], pixels);
    while r < g.height
      invariant 0 <= r <= g.height && offset == Scanline(g, r) <= |pixels|
      invariant decoder.Valid() && decoder.OutsidePadding() && decoder.KeepsImages()
      invariant Cutting(size, ready, [], pixels, offset, decoder.ReadyPixels(), decoder.PartialPixels())
    {
      var nextRow, next := r + 1, offset + g.rowBytes;
      NextScanline(g, r, nextRow);
      ghost var wasReady, wasPartial := decoder.ReadyPixels(), decoder.PartialPixels();
      decoder.WriteUnpaddedFrameData(pixels[offset..next]);
      CutMore(size, ready, [], pixels, offset, next, wasReady, wasPartial,
              decoder.ReadyPixels(), decoder.PartialPixels());
      r, offset := nextRow, next;
    }
    OneFrame(size, ready, pixels, offset, decoder.ReadyPixels(), decoder.PartialPixels());
  }

  lemma OneFrame(size: nat, ready: seq<seq<byte>>, pixels: seq<byte>, offset: nat, now: seq<seq<byte>>,
                 partial: seq<byte>)
    requires Cutting(size, ready, [], pixels, offset, now, partial) && offset == |pixels| == size
    ensures now == ready + [pixels] && partial == []
  {
    CutEnd(size, ready, [], pixels, offset, now, partial);
    assert [] + pixels == pixels;
    OneBlock(size, pixels);
  }

  function Scanline(g: Geometry, r: nat): nat {
    r * g.rowBytes
  }

  lemma NextScanline(g: Geometry, r: nat, next: nat)
    requires g.Valid() && next == r + 1
    ensures g.height > 0 && g.rowBytes > 0
    ensures Scanline(g, 0) == 0 && Scanline(g, g.height) == g.frameBytes
    ensures r < g.height ==> Scanline(g, r) + g.rowBytes == Scanline(g, next) <= g.frameBytes
  {
    if r < g.height {
      LastRow(r, g.height, g.rowBytes);
    }
  }

  class JpegDecoder {
    const decoder: Decoder
    const decompress: seq<byte> -> seq<byte>
    var buffer: array<byte>
    var bytesNeeded: nat
    var bytesReceived: nat

    ghost predicate Valid()
      reads this, decoder, decoder.FreeData()
    {
      && decoder.Valid() && decoder.OutsidePadding() && decoder.PartialPixels() == []
      && bytesReceived <= buffer.Length
      && buffer !in decoder.FreeData() && buffer !in decoder.ReadyData()
      && (forall frame :: |decompress(frame)| == decoder.geometry.frameBytes)
    }

    /** The part of Valid that does not depend on which images the decoder has. */
    ghost predicate BetweenFrames()
      reads this, decoder
    {
      && decoder.OutsidePadding() && PixelsBefore(decoder.geometry, decoder.writeOffset) == 0
      && bytesReceived <= buffer.Length
      && (forall frame :: |decompress(frame)| == decoder.geometry.frameBytes)
    }

    lemma HasGeometry()
      requires Valid()
      ensures decoder.Valid() && decoder.geometry.Valid() && bytesReceived <= buffer.Length
    {
    }

    lemma ValidParts()
      requires decoder.Valid()
      ensures Valid() <==> BetweenFrames() && buffer !in decoder.FreeData() && buffer !in decoder.ReadyData()
    {
      PixelsBeforeZero(decoder.geometry);
      hide PixelsBefore;
    }

    ghost function View(): State
      requires bytesReceived <= buffer.Length
      reads this, buffer
    {
      State(bytesNeeded, buffer[..bytesReceived], buffer.Length)
    }

    constructor (decoder: Decoder, decompress: seq<byte> -> seq<byte>)
      requires decoder.Valid() && decoder.OutsidePadding() && decoder.PartialPixels() == []
      requires forall frame :: |decompress(frame)| == decoder.geometry.frameBytes
      ensures Valid() && View() == State(0, [], 0) && fresh(buffer)
      ensures this.decoder == decoder && this.decompress == decompress
    {
      this.decoder, this.decompress := decoder, decompress;
      buffer := new byte[0];
      bytesNeeded, bytesReceived := 0, 0;
    }

    /** Reads a frame's length and makes room for it. */
    method StartFrame(length: nat)
      requires Valid()
      modifies this
      ensures Valid() && View() == State(length, [], Max(old(buffer.Length), length))
      ensures buffer == old(buffer) || fresh(buffer)
    {
      bytesReceived := 0;
      bytesNeeded := length;
      if buffer.Length < bytesNeeded {
        buffer := Realloc(buffer, bytesNeeded);
      }
    }

    /** The copying branch of decode, up to the test for a complete frame. */
    method Store(chunk: seq<byte>)
      requires Valid() && bytesReceived + |chunk| <= buffer.Length
      modifies this`bytesReceived, buffer
      ensures Valid() && bytesReceived == old(bytesReceived) + |chunk|
      ensures View() == old(View()).(received := old(View()).received + chunk)
    {
      assert chunk[0..|chunk|] == chunk;
      Memcpy(buffer, bytesReceived, chunk, 0, |chunk|);
      assert buffer[..bytesReceived + |chunk|] == old(buffer[..bytesReceived]) + chunk;
      bytesReceived := bytesReceived + |chunk|;
    }

    /** The rest of the copying branch: decompresses the complete frame. */
    method CompleteFrame() returns (frame: seq<byte>)
      requires Valid() && bytesReceived == bytesNeeded
      modifies this`bytesNeeded, decoder, decoder.FreeData()
      ensures Valid() && decoder.KeepsImages() && frame == old(View()).received
      ensures View() == old(View()).(needed := 0)
      ensures decoder.ReadyPixels() == old(decoder.ReadyPixels()) + [decompress(frame)]
    {
      frame := buffer[..bytesNeeded];
      WriteScanlines(decoder, decompress(frame));
      bytesNeeded := 0;
    }

    /** One round of decode's loop over the data from `offset` on. */
    method Round(data: seq<byte>, offset: nat) returns (ok: bool, next: nat, delivered: seq<seq<byte>>)
      requires Valid() && offset < |data|
      modifies this, buffer, decoder, decoder.FreeData()
      ensures !ok ==> DecodeData(old(View()), data[offset..]) == Fault
      ensures ok ==>
        && Valid() && decoder.KeepsImages() && offset < next <= |data|
        && (buffer == old(buffer) || fresh(buffer))
        && DecodeData(old(View()), data[offset..]) == Deliver(delivered, DecodeData(View(), data[next..]))
        && decoder.ReadyPixels() == old(decoder.ReadyPixels()) + Decompressed(decompress, delivered)
    {
      hide DecodeData, Deliver, Decompressed, Decoder.ReadyPixels, Decoder.PartialPixels, Decoder.OutsidePadding,
        Decoder.Ready, Decoder.Valid;
      var rest := data[offset..];
      ghost var s, ready := View(), decoder.ReadyPixels();
      delivered := [];
      DecompressedOne(decompress, ready, s.received);
      if bytesNeeded == 0 {
        StartRound(s, rest);
        if |rest| < 4 {
          return false, offset, [];
        }
        StartFrame(Get32(rest));
        next := offset + 4;
        assert rest[4..] == data[next..];
      } else {
        var chunkSize := Min(|rest|, bytesNeeded);
        CopyRound(s, rest, chunkSize);
        if bytesReceived + chunkSize > buffer.Length {
          return false, offset, [];
        }
        Store(rest[..chunkSize]);
        next := offset + chunkSize;
        assert rest[chunkSize..] == data[next..];
        if bytesReceived == bytesNeeded {
          var frame := CompleteFrame();
          DecompressedOne(decompress, ready, frame);
          delivered := [frame];
        }
      }
      ok := true;
    }

    /** decode: `delivered` are the encoded frames handed to libjpeg; not ok is a fault. */
    method Decode(data: seq<byte>) returns (ok: bool, delivered: seq<seq<byte>>)
      requires Valid()
      modifies this, buffer, decoder, decoder.FreeData()
      ensures !ok <==> DecodeData(old(View()), data) == Fault
      ensures ok ==>
        && Valid() && decoder.KeepsImages() && (buffer == old(buffer) || fresh(buffer))
        && DecodeData(old(View()), data) == Done(View(), delivered)
        && decoder.ReadyPixels() == old(decoder.ReadyPixels()) + Decompressed(decompress, delivered)
    {
      hide DecodeData, Deliver, Decompressed, Along, Shown, Decoder.Valid, Decoder.ReadyPixels;
      ghost var total, ready := DecodeData(View(), data), decoder.ReadyPixels();
      var offset := 0;
      delivered := [];
      assert data[0..] == data;
      NothingDelivered(decompress, total, ready, View(), data);
      while offset < |data|
        invariant 0 <= offset <= |data| && Valid()
        invariant Along(total, delivered, View(), data[offset..])
        invariant decoder.KeepsImages()
        invariant buffer == old(buffer) || fresh(buffer)
        invariant Shown(decompress, ready, delivered, decoder.ReadyPixels())
      {
        ghost var s, was, from := View(), decoder.ReadyPixels(), offset;
        var more;
        ok, offset, more := Round(data, offset);
        if !ok {
          FaultDelivered(total, delivered, s, data[from..]);
          return;
        }
        MoreDelivered(decompress, total, ready, delivered, s, data[from..], more, View(), data[offset..],
                      was, decoder.ReadyPixels());
        delivered := delivered + more;
      }
      ok := true;
      NoMoreData(decompress, total, ready, delivered, View(), data[offset..], decoder.ReadyPixels());
    }
  }

  /** A call that has handed over `delivered` is in state s with `data` left, and will end in total. */
  ghost predicate Along(total: Outcome, delivered: seq<seq<byte>>, s: State, data: seq<byte>) {
    total == Deliver(delivered, DecodeData(s, data))
  }

  /** The images of the frames handed over are ready behind those that were. */
  ghost predicate Shown(f: seq<byte> -> seq<byte>, ready: seq<seq<byte>>, delivered: seq<seq<byte>>,
                        now: seq<seq<byte>>) {
    now == ready + Decompressed(f, delivered)
  }

  lemma NothingDelivered(f: seq<byte> -> seq<byte>, total: Outcome, ready: seq<seq<byte>>, s: State, data: seq<byte>)
    requires total == DecodeData(s, data)
    ensures Along(total, [], s, data) && Shown(f, ready, [], ready)
  {
    DeliverNone(total);
    hide Deliver, DecodeData;
  }

  lemma FaultDelivered(total: Outcome, delivered: seq<seq<byte>>, s: State, data: seq<byte>)
    requires Along(total, delivered, s, data) && DecodeData(s, data) == Fault
    ensures total == Fault
  {
  }

  lemma MoreDelivered(f: seq<byte> -> seq<byte>, total: Outcome, ready: seq<seq<byte>>, delivered: seq<seq<byte>>,
                      s: State, data: seq<byte>, more: seq<seq<byte>>, s': State, data': seq<byte>,
                      was: seq<seq<byte>>, now: seq<seq<byte>>)
    requires Along(total, delivered, s, data) && Shown(f, ready, delivered, was)
    requires DecodeData(s, data) == Deliver(more, DecodeData(s', data')) && now == was + Decompressed(f, more)
    ensures Along(total, delivered + more, s', data') && Shown(f, ready, delivered + more, now)
  {
    hide DecodeData;
    DeliverTwice(f, ready, delivered, more, DecodeData(s', data'));
    hide Deliver, Decompressed;
  }

  /** A round that reads a frame's length. */
  lemma StartRound(s: State, data: seq<byte>)
    requires s.needed == 0 && data != []
    ensures |data| < 4 ==> DecodeData(s, data) == Fault
    ensures |data| >= 4 ==>
      DecodeData(s, data) == Deliver([], DecodeData(State(Get32(data), [], Max(s.capacity, Get32(data))), data[4..]))
  {
    if |data| >= 4 {
      DeliverNone(DecodeData(State(Get32(data), [], Max(s.capacity, Get32(data))), data[4..]));
    }
  }

  /** A round that copies. */
  lemma CopyRound(s: State, data: seq<byte>, chunkSize: nat)
    requires s.needed > 0 && data != [] && chunkSize == Min(|data|, s.needed)
    ensures var received := s.received + data[..chunkSize];
      && (|received| > s.capacity ==> DecodeData(s, data) == Fault)
      && (|received| <= s.capacity && |received| == s.needed ==>
            DecodeData(s, data) == Deliver([received], DecodeData(State(0, received, s.capacity), data[chunkSize..])))
      && (|received| <= s.capacity && |received| != s.needed ==>
            DecodeData(s, data) == Deliver([], DecodeData(State(s.needed, received, s.capacity), data[chunkSize..])))
  {
    DeliverNone(DecodeData(s.(received := s.received + data[..chunkSize]), data[chunkSize..]));
    hide Deliver;
  }

  lemma DecompressedOne(f: seq<byte> -> seq<byte>, ready: seq<seq<byte>>, frame: seq<byte>)
    ensures ready + Decompressed(f, []) == ready
    ensures ready + [f(frame)] == ready + Decompressed(f, [frame])
  {
  }

  lemma DeliverNone(o: Outcome)
    ensures Deliver([], o) == o
  {
  }

  lemma DeliverTwice(f: seq<byte> -> seq<byte>, ready: seq<seq<byte>>, a: seq<seq<byte>>, b: seq<seq<byte>>, o: Outcome)
    ensures Deliver(a, Deliver(b, o)) == Deliver(a + b, o)
    ensures ready + Decompressed(f, a) + Decompressed(f, b) == ready + Decompressed(f, a + b)
  {
    match o
    case Fault =>
    case Done(s, frames) => assert a + (b + frames) == a + b + frames;
  }

  lemma NoMoreData(f: seq<byte> -> seq<byte>, total: Outcome, ready: seq<seq<byte>>, delivered: seq<seq<byte>>,
                   s: State, data: seq<byte>, now: seq<seq<byte>>)
    requires Along(total, delivered, s, data) && Shown(f, ready, delivered, now) && data == []
    ensures total == Done(s, delivered) && now == ready + Decompressed(f, delivered)
  {
    assert delivered + [] == delivered;
  }
}
