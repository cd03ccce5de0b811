/** lib/stream.c: the client's hand-off of the latest frame, for raw and jpeg streams. */
module ClientStreams {
  import opened Bytes
  import opened Geometries
  import opened Decoders
  import opened Jpeg
  import JpegStreams

  const START := State(0, [], 0)

  /** An image that is in neither list of a decoder, but could be. */
  ghost predicate Outside(image: Image, g: Geometry, free: seq<Image>, ready: seq<Image>) {
    image.geometry == g && image.imageData.Length == g.imageSize && Disjoint([image], free) && Disjoint([image], ready)
  }

  /** Images outside the decoder, no two of which share their pixels. */
  ghost predicate AllOutside(images: set<Image>, g: Geometry, free: seq<Image>, ready: seq<Image>) {
    && (forall image :: image in images ==> Outside(image, g, free, ready))
    && (forall i, j :: i in images && j in images && i != j ==> i.imageData != j.imageData)
  }

  function SetOf<T>(s: seq<T>): set<T> {
    set x | x in s
  }

  lemma ApartFromThree(image: Image, a: seq<Image>, b: seq<Image>, c: seq<Image>)
    requires Disjoint([image], a) && Disjoint([image], b) && Disjoint([image], c)
    ensures Disjoint([image], a + b + c)
  {
  }

  /** When the newest completed image is published, it and the images handed out are outside the
      decoder, to which the others and the one it replaces go back. */
  lemma PublishedOutside(g: Geometry, held: set<Image>, current: seq<Image>, free: seq<Image>, ready: seq<Image>,
                         n: nat)
    requires n + 1 == |ready| && Fits(g, ready) && Distinct(ready) && Disjoint(free, ready)
    requires |current| <= 1 && (forall image :: image in current ==> image !in held)
    requires AllOutside(held + SetOf(current), g, free, ready)
    ensures AllOutside(held + SetOf([ready[n]]), g, free + current + ready[..n], [])
    ensures ready[n] !in held && ready[n] !in current
  {
    var newest, loose := ready[n], held + SetOf(current);
    assert forall image :: image in loose ==> image.imageData != newest.imageData by {
      forall image | image in loose ensures image.imageData != newest.imageData {
        assert Outside(image, g, free, ready) && [image][0] == image;
      }
    }
    forall image | image in held + SetOf([newest]) ensures Outside(image, g, free + current + ready[..n], []) {
      if image in held {
        assert Outside(image, g, free, ready);
      }
      ApartFromThree(image, free, current, ready[..n]);
    }
  }

  /** An image that is returned is outside no more, the others are. */
  lemma ReturnedOutside(g: Geometry, images: set<Image>, image: Image, free: seq<Image>)
    requires AllOutside(images, g, free, []) && image in images
    ensures AllOutside(images - {image}, g, free + [image], [])
  {
    forall other | other in images - {image} ensures Outside(other, g, free + [image], []) {
      assert Outside(other, g, free, []);
    }
  }

  /** What a raw stream has decoded. */
  ghost predicate Cuts(size: nat, calls: seq<seq<byte>>, frames: seq<seq<byte>>, partial: seq<byte>) {
    size > 0 && RawCalls(size, [], calls) == (frames, partial)
  }

  lemma CutsMore(size: nat, calls: seq<seq<byte>>, data: seq<byte>, frames: seq<seq<byte>>, partial: seq<byte>,
                 ready: seq<seq<byte>>, partial': seq<byte>)
    requires Cuts(size, calls, frames, partial)
    requires ready == [] + Blocks(size, partial + data) && partial' == Rest(size, partial + data)
    ensures Cuts(size, calls + [data], frames + ready, partial')
  {
    RawCallsMore(size, [], calls, data);
    hide Blocks, Rest, RawCalls;
    assert ready == Blocks(size, partial + data);
  }

  /** What a jpeg stream has decoded: the frames are the images of those handed to libjpeg. */
  ghost predicate Decompresses(g: Geometry, decompress: seq<byte> -> seq<byte>, calls: seq<seq<byte>>,
                               frames: seq<seq<byte>>, s: State)
    requires g.Valid()
  {
    && (forall i :: 0 <= i < |frames| ==> |frames[i]| == g.imageSize)
    && JpegStreams.DecodeCalls(START, calls).Done?
    && JpegStreams.DecodeCalls(START, calls).state == s
    && WithoutPadding(g, frames) == Decompressed(decompress, JpegStreams.DecodeCalls(START, calls).frames)
  }

  lemma DecompressesMore(g: Geometry, decompress: seq<byte> -> seq<byte>, calls: seq<seq<byte>>, data: seq<byte>,
                         frames: seq<seq<byte>>, ready: seq<seq<byte>>, s: State, s': State, delivered: seq<seq<byte>>,
                         was: seq<seq<byte>>, now: seq<seq<byte>>)
    requires g.Valid() && Decompresses(g, decompress, calls, frames, s)
    requires DecodeData(s, data) == Done(s', delivered)
    requires forall i :: 0 <= i < |ready| ==> |ready[i]| == g.imageSize
    requires was == [] && now == was + Decompressed(decompress, delivered) && now == WithoutPadding(g, ready)
    ensures Decompresses(g, decompress, calls + [data], frames + ready, s')
  {
    OneCall(s, data);
    hide DecodeData, Pixels, Geometry.Sized;
    JpegStreams.CallsAppend(START, calls, [data]);
    var all := JpegStreams.DecodeCalls(START, calls).frames;
    DecompressedBoth(g, decompress, frames, ready, all, delivered, was, now);
    hide WithoutPadding, Decompressed;
  }

  lemma DecompressedBoth(g: Geometry, decompress: seq<byte> -> seq<byte>, a: seq<seq<byte>>, b: seq<seq<byte>>,
                         x: seq<seq<byte>>, y: seq<seq<byte>>, was: seq<seq<byte>>, now: seq<seq<byte>>)
    requires g.Valid() && (forall i :: 0 <= i < |a| ==> |a[i]| == g.imageSize)
    requires forall i :: 0 <= i < |b| ==> |b[i]| == g.imageSize
    requires WithoutPadding(g, a) == Decompressed(decompress, x) && now == WithoutPadding(g, b)
    requires was == [] && now == was + Decompressed(decompress, y)
    ensures forall i :: 0 <= i < |a + b| ==> |(a + b)[i]| == g.imageSize
    ensures WithoutPadding(g, a + b) == Decompressed(decompress, x + y)
  {
    hide Pixels, Geometry.Sized, Geometry.Valid;
    var left, right := WithoutPadding(g, a + b), Decompressed(decompress, x + y);
    assert now == Decompressed(decompress, y);
    assert |a| == |x| && |b| == |y|;
    forall i | 0 <= i < |left| ensures left[i] == right[i] {
      if i < |a| {
        assert left[i] == WithoutPadding(g, a)[i] && right[i] == Decompressed(decompress, x)[i];
      } else {
        assert left[i] == now[i - |a|] && right[i] == Decompressed(decompress, y)[i - |a|];
      }
    }
  }

  lemma OneCall(s: State, data: seq<byte>)
    ensures JpegStreams.DecodeCalls(s, [data]) == DecodeData(s, data)
  {
    hide DecodeData;
    var o := DecodeData(s, data);
    if o.Done? {
      assert [data][1..] == [] && o.frames + [] == o.frames;
    }
  }

  class ClientStream {
    const decoder: Decoder

    /** What reassembles the frames of a jpeg stream; a raw one has none. */
    const jpeg: JpegDecoder?
    var currentFrame: Image?

    /** The data of every call so far. */
    ghost var calls: seq<seq<byte>>

    /** The frames completed so far. */
    ghost var frames: seq<seq<byte>>

    /** The images handed out and not yet returned. */
    ghost var held: set<Image>

    ghost function Current(): seq<Image>
      reads this
    {
      if currentFrame == null then [] else [currentFrame]
    }

    /** The images the stream has not handed out. */
    ghost function Owned(): set<Image>
      reads this, decoder
    {
      SetOf(decoder.All()) + SetOf(Current())
    }

    /** The images the decoder must not touch. */
    ghost function Loose(): set<Image>
      reads this
    {
      held + SetOf(Current())
    }

    ghost function CurrentData(): set<array<byte>>
      reads this
    {
      set image | image in Current() :: image.imageData
    }

    ghost function JpegParts(): set<object?>
      reads if jpeg == null then {} else {jpeg}
    {
      if jpeg == null then {} else {jpeg, jpeg.buffer}
    }

    /** The frames completed, and the bytes of the next one, are those of the calls. */
    ghost predicate Decoded()
      requires decoder.Valid()
      reads this, decoder, decoder.FreeData(), decoder.ReadyData(), JpegParts()
    {
      if jpeg == null then Cuts(decoder.geometry.imageSize, calls, frames, decoder.Partial())
      else jpeg.decoder == decoder && jpeg.BetweenFrames()
           && Decompresses(decoder.geometry, jpeg.decompress, calls, frames, jpeg.View())
    }

    /** Neither the current frame nor one handed out is the decoder's. */
    ghost predicate Apart()
      reads this, decoder, JpegParts()
    {
      && AllOutside(Loose(), decoder.geometry, decoder.freeFrames, decoder.readyFrames)
      && (currentFrame == null || currentFrame !in held)
      && BufferApart()
    }

    /** The buffer of a jpeg stream is not the pixels of an image. */
    ghost predicate BufferApart()
      reads this, decoder, JpegParts()
    {
      jpeg != null ==> forall image :: image in Owned() + held ==> image.imageData != jpeg.buffer
    }

    lemma JpegIsValid()
      requires decoder.Valid() && jpeg != null && jpeg.decoder == decoder
      requires jpeg.BetweenFrames() && BufferApart()
      ensures jpeg.Valid()
    {
      jpeg.ValidParts();
      hide Decoder.Valid, JpegDecoder.Valid, JpegDecoder.BetweenFrames;
      assert forall image :: image in decoder.freeFrames || image in decoder.readyFrames ==> image in Owned() + held;
    }

    ghost predicate BufferNotDecoders()
      requires jpeg != null
      reads this, decoder, jpeg
    {
      jpeg.buffer !in decoder.FreeData() && jpeg.buffer !in decoder.ReadyData()
    }

    lemma NoBuffer()
      requires jpeg == null
      ensures BufferApart()
    {
    }

    lemma BufferStaysApart()
      requires jpeg != null && BufferNotDecoders()
      requires forall image :: image in Loose() ==> image.imageData != jpeg.buffer
      ensures BufferApart()
    {
      forall image | image in Owned() + held ensures image.imageData != jpeg.buffer {
        assert image in Loose() || image in decoder.readyFrames || image in decoder.freeFrames;
      }
    }

    /** Between calls no completed frame is waiting, the current frame, if there is one, is the
        last frame completed, and frames that are handed out are no longer touched. */
    ghost predicate Valid()
      reads this, decoder, decoder.FreeData(), decoder.ReadyData(), CurrentData(), JpegParts()
    {
      && decoder.Valid() && decoder.readyFrames == []
      && (currentFrame != null ==> frames != [] && currentFrame.imageData[..] == frames[|frames| - 1])
      && Apart() && Decoded()
    }

    constructor Raw(g: Geometry)
      requires g.Valid()
      ensures Valid() && jpeg == null && fresh(decoder) && decoder.geometry == g
      ensures calls == [] && frames == [] && held == {} && currentFrame == null
    {
      decoder := new Decoder(g);
      jpeg, currentFrame, calls, frames, held := null, null, [], [], {};
    }

    constructor Compressed(g: Geometry, decompress: seq<byte> -> seq<byte>)
      requires g.Valid() && forall frame :: |decompress(frame)| == g.frameBytes
      ensures Valid() && jpeg != null && jpeg.decompress == decompress && fresh(decoder) && decoder.geometry == g
      ensures calls == [] && frames == [] && held == {} && currentFrame == null
    {
      var empty := new Decoder(g);
      PixelsBeforeZero(g);
      decoder := empty;
      jpeg := new JpegDecoder(empty, decompress);
      currentFrame, calls, frames, held := null, [], [], {};
    }

    /** Returns the completed frames but the newest to the decoder. */
    method ReturnStale()
      requires decoder.Valid() && decoder.readyFrames != []
      modifies decoder`freeFrames, decoder`readyFrames
      ensures decoder.Valid() && decoder.Partial() == old(decoder.Partial())
      ensures var n := |old(decoder.readyFrames)| - 1;
        && decoder.readyFrames == old(decoder.readyFrames)[n..]
        && decoder.freeFrames == old(decoder.freeFrames) + old(decoder.readyFrames)[..n]
    {
      hide Decoder.PartialPixels, Decoder.ReadyPixels, Decoder.OutsidePadding, Geometry.Valid;
      ghost var free, ready, n := decoder.freeFrames, decoder.readyFrames, 0;
      assert ready[..0] == [];
      while |decoder.readyFrames| > 1
        invariant 0 <= n < |ready| && decoder.readyFrames == ready[n..]
        invariant decoder.freeFrames == free + ready[..n]
        invariant decoder.Valid() && decoder.Partial() == old(decoder.Partial())
        decreases |decoder.readyFrames|
      {
        var stale := decoder.GetFrame();
        decoder.ReturnFrame(stale);
        n := n + 1;
      }
    }

    /** The publishing half of provideData: the newest completed frame becomes current, the
        one it replaces and the older completed ones go back to the decoder. */
    method Publish()
      requires decoder.Valid() && decoder.readyFrames != []
      requires forall image :: image in Current() ==>
        Outside(image, decoder.geometry, decoder.freeFrames, decoder.readyFrames)
      modifies this`currentFrame, decoder`freeFrames, decoder`readyFrames
      ensures decoder.Valid() && decoder.Partial() == old(decoder.Partial())
      ensures var n := |old(decoder.readyFrames)| - 1;
        && currentFrame == old(decoder.readyFrames)[n] && decoder.readyFrames == []
        && decoder.freeFrames == old(decoder.freeFrames) + old(Current()) + old(decoder.readyFrames)[..n]
    {
      if currentFrame != null {
        assert currentFrame in Current();
        decoder.ReturnFrame(currentFrame);
      }
      ReturnStale();
      currentFrame := decoder.GetFrame();
    }

    /** The decoding half of provideData for a raw stream. */
    method DecodeRaw(data: seq<byte>)
      requires decoder.Valid() && decoder.readyFrames == []
      requires Cuts(decoder.geometry.imageSize, calls, frames, decoder.Partial())
      modifies this`calls, this`frames, decoder, decoder.FreeData()
      ensures decoder.Valid() && decoder.KeepsImages()
      ensures calls == old(calls) + [data] && frames == old(frames) + decoder.Ready()
      ensures Cuts(decoder.geometry.imageSize, calls, frames, decoder.Partial())
    {
      assert decoder.Ready() == [];
      ghost var size, partial := decoder.geometry.imageSize, decoder.Partial();
      hide Blocks, Rest, Cuts, Contents, Decoder.Valid, Decoder.KeepsImages;
      decoder.WritePaddedFrameData(data);
      CutsMore(size, calls, data, frames, partial, decoder.Ready(), decoder.Partial());
      calls, frames := calls + [data], frames + decoder.Ready();
    }

    /** The decoding half of provideData for a jpeg stream. */
    method DecodeJpeg(data: seq<byte>) returns (ok: bool)
      requires jpeg != null && jpeg.decoder == decoder && jpeg.Valid() && decoder.readyFrames == []
      requires Decompresses(decoder.geometry, jpeg.decompress, calls, frames, jpeg.View())
      modifies this`calls, this`frames, decoder, decoder.FreeData(), jpeg, jpeg.buffer
      ensures !ok <==> JpegStreams.DecodeCalls(START, old(calls) + [data]) == Fault
      ensures ok ==>
        && decoder.Valid() && decoder.KeepsImages() && jpeg.BetweenFrames() && BufferNotDecoders()
        && (jpeg.buffer == old(jpeg.buffer) || fresh(jpeg.buffer))
        && calls == old(calls) + [data] && frames == old(frames) + decoder.Ready()
        && Decompresses(decoder.geometry, jpeg.decompress, calls, frames, jpeg.View())
    {
      hide Decompresses, Decompressed, DecodeData, WithoutPadding, Contents, JpegDecoder.Valid, Decoder.Valid,
        Decoder.ReadyPixels, JpegStreams.DecodeCalls, Geometry.Valid;
      jpeg.HasGeometry();
      ghost var s, g, was, all := jpeg.View(), decoder.geometry, decoder.ReadyPixels(), calls + [data];
      decoder.ReadyIsFull();
      CallOutcome(g, jpeg.decompress, calls, data, frames, s);
      var delivered;
      ok, delivered := jpeg.Decode(data);
      if ok {
        ghost var ready := decoder.Ready();
        jpeg.HasGeometry();
        jpeg.ValidParts();
        decoder.ReadyIsFull();
        DecompressesMore(g, jpeg.decompress, calls, data, frames, ready, s, jpeg.View(), delivered,
                         was, decoder.ReadyPixels());
        calls, frames := all, frames + ready;
      }
    }

    /** The decoding half of provideData: it writes neither the current frame nor one handed out. */
    method Decode(data: seq<byte>) returns (ok: bool)
      requires Valid()
      modifies this`calls, this`frames, decoder, decoder.FreeData(), JpegParts()
      ensures !ok <==> jpeg != null && JpegStreams.DecodeCalls(START, old(calls) + [data]) == Fault
      ensures forall image :: image in Loose() ==> image.imageData[..] == old(image.imageData[..])
      ensures ok ==>
        && decoder.Valid() && decoder.KeepsImages() && Apart() && Decoded()
        && calls == old(calls) + [data] && frames == old(frames) + decoder.Ready()
    {
      hide Decompresses, Cuts, Contents, Fits, Disjoint, AllOutside, BufferApart,
        JpegDecoder.Valid, Decoder.Valid, JpegDecoder.BetweenFrames, Decoder.Partial;
      ghost var loose := Loose();
      LooseUntouched();
      if jpeg == null {
        DecodeRaw(data);
        NoBuffer();
        ok := true;
      } else {
        JpegIsValid();
        ok := DecodeJpeg(data);
        if ok {
          assert Loose() == loose;
          BufferStaysApart();
        }
      }
      if ok {
        assert Loose() == loose;
        StaysOutside(loose);
      }
    }

    /** An image stays outside the decoder while that decodes. */
    twostate lemma StaysOutside(images: set<Image>)
      requires old(AllOutside(images, decoder.geometry, decoder.freeFrames, decoder.readyFrames))
      requires decoder.KeepsImages()
      ensures AllOutside(images, decoder.geometry, decoder.freeFrames, decoder.readyFrames)
    {
      forall image | image in images
        ensures Outside(image, decoder.geometry, decoder.freeFrames, decoder.readyFrames)
      {
        assert old(Outside(image, decoder.geometry, decoder.freeFrames, decoder.readyFrames));
        decoder.KeepsApart(image);
      }
    }

    lemma LooseUntouched()
      requires Apart()
      ensures forall image :: image in Loose() ==> image.imageData !in decoder.FreeData()
      ensures jpeg != null ==> forall image :: image in Loose() ==> image.imageData != jpeg.buffer
    {
      forall image | image in Loose() ensures image.imageData !in decoder.FreeData() {
        assert Outside(image, decoder.geometry, decoder.freeFrames, decoder.readyFrames) && [image][0] == image;
      }
    }

    /** SVR_Stream_provideData: bytes may complete any number of frames. Of those only the last
        is published. Neither the current frame nor one handed out is written. */
    method ProvideData(data: seq<byte>) returns (ok: bool)
      requires Valid()
      modifies this, decoder, decoder.FreeData(), JpegParts()
      ensures !ok <==> jpeg != null && JpegStreams.DecodeCalls(START, old(calls) + [data]) == Fault
      ensures forall image :: image in old(Loose()) ==> image.imageData[..] == old(image.imageData[..])
      ensures ok ==> Valid() && calls == old(calls) + [data] && held == old(held) && old(frames) <= frames
      ensures ok ==>
        if frames == old(frames) then currentFrame == old(currentFrame)
        else currentFrame != null && currentFrame != old(currentFrame)
      ensures ok ==>
        && old(Owned()) <= Owned()
        && forall image :: image in Owned() ==> image in old(Owned()) || decoder.New(image)
    {
      hide Decoded, Apart, Decoder.KeepsImages, Contents, Decoder.Valid, Owned, Decoder.New;
      ok := Decode(data);
      if ok {
        OwnedGrows();
        if |decoder.readyFrames| > 0 {
          PublishNewest();
        } else {
          assert decoder.Ready() == [];
        }
      }
    }

    twostate lemma OwnedGrows()
      requires decoder.KeepsImages() && currentFrame == old(currentFrame)
      ensures old(Owned()) <= Owned()
      ensures forall image :: image in Owned() ==> image in old(Owned()) || decoder.New(image)
    {
      hide Decoder.KeepsImages, Decoder.New;
      decoder.KeepsOwned();
    }

    /** Publishing keeps everything in order. */
    method PublishNewest()
      requires decoder.Valid() && Decoded() && Apart() && decoder.readyFrames != [] && frames != []
      requires frames[|frames| - 1] == decoder.readyFrames[|decoder.readyFrames| - 1].imageData[..]
      modifies this`currentFrame, decoder`freeFrames, decoder`readyFrames
      ensures Valid() && currentFrame != null && currentFrame != old(currentFrame) && Owned() == old(Owned())
    {
      ghost var current, free, ready := Current(), decoder.freeFrames, decoder.readyFrames;
      ghost var n: nat := |ready| - 1;
      PublishedOutside(decoder.geometry, held, current, free, ready, n);
      SamePublished(current, free, ready, n);
      CurrentOutside();
      ghost var newest := frames[|frames| - 1];
      hide AllOutside, Outside, Decompresses, Cuts, Decoder.Valid, Decoder.Partial, Decoded, BufferApart;
      Publish();
      assert Current() == [ready[n]];
      DecodedStays();
      BufferApartStays();
      assert Apart();
    }

    lemma CurrentOutside()
      requires Apart()
      ensures forall image :: image in Current() ==>
        Outside(image, decoder.geometry, decoder.freeFrames, decoder.readyFrames)
    {
      assert forall image :: image in Current() ==> image in Loose();
    }

    /** What was decoded does not depend on where the images are. */
    twostate lemma DecodedStays()
      requires old(decoder.Valid()) && decoder.Valid() && old(Decoded())
      requires calls == old(calls) && frames == old(frames)
      requires decoder.Partial() == old(decoder.Partial()) && decoder.writeOffset == old(decoder.writeOffset)
      requires jpeg != null ==> unchanged(jpeg) && unchanged(jpeg.buffer)
      ensures Decoded()
    {
      hide Cuts, Decompresses, Decoder.Valid, Decoder.Partial;
    }

    twostate lemma BufferApartStays()
      requires old(BufferApart()) && Owned() + held == old(Owned() + held) && (jpeg != null ==> unchanged(jpeg))
      ensures BufferApart()
    {
    }

    /** SVR_Stream_getFrame, once it need not wait: hands out the current frame, if any. */
    method GetFrame() returns (frame: Image?)
      requires Valid()
      modifies this`currentFrame, this`held
      ensures Valid() && frame == old(currentFrame) && currentFrame == null && held == old(Loose())
      ensures frame != null ==>
        frame !in old(held) && frame in held && frames != [] && frame.imageData[..] == frames[|frames| - 1]
    {
      hide AllOutside, Cuts, Decompresses;
      frame := currentFrame;
      assert frame != null ==> frame in Current();
      held := Loose();
      currentFrame := null;
      assert Loose() == old(Loose());
    }

    /** SVR_Stream_returnFrame: the frame goes behind the one being assembled. */
    method ReturnFrame(frame: Image)
      requires Valid() && frame in held
      modifies this`held, decoder`freeFrames
      ensures Valid() && held == old(held) - {frame} && decoder.freeFrames == old(decoder.freeFrames) + [frame]
    {
      ghost var loose := Loose();
      ReturnedOutside(decoder.geometry, loose, frame, decoder.freeFrames);
      assert frame !in Current() && Outside(frame, decoder.geometry, decoder.freeFrames, decoder.readyFrames);
      hide AllOutside, Cuts, Decompresses, Decoder.Valid, Decoder.Partial, Decoder.PartialPixels,
        Decoder.OutsidePadding;
      decoder.ReturnFrame(frame);
      held := held - {frame};
      assert Loose() == loose - {frame};
    }
  }

  /** Publishing moves images, but neither makes nor loses any. */
  lemma SamePublished(current: seq<Image>, free: seq<Image>, ready: seq<Image>, n: nat)
    requires n + 1 == |ready|
    ensures SetOf([] + (free + current + ready[..n])) + SetOf([ready[n]]) == SetOf(ready + free) + SetOf(current)
  {
    assert ready == ready[..n] + [ready[n]];
    assert forall image :: image in ready <==> image in ready[..n] || image == ready[n];
  }

  lemma CallOutcome(g: Geometry, decompress: seq<byte> -> seq<byte>, calls: seq<seq<byte>>, data: seq<byte>,
                    frames: seq<seq<byte>>, s: State)
    requires g.Valid() && Decompresses(g, decompress, calls, frames, s)
    ensures DecodeData(s, data) == Fault <==> JpegStreams.DecodeCalls(START, calls + [data]) == Fault
  {
    OneCall(s, data);
    JpegStreams.CallsAppend(START, calls, [data]);
    hide DecodeData;
  }
}
