/** lib/encoding.c: the decoder, which assembles a byte stream into frames. */
module Decoders {
  import opened Bytes
  import opened Geometries
  import opened Encoders

  /** An IplImage: its geometry and its own pixel storage. */
  class Image {
    const geometry: Geometry
    const imageData: array<byte>

    constructor (g: Geometry)
      ensures geometry == g && fresh(imageData) && imageData.Length == g.imageSize
    {
      geometry := g;
      imageData := new byte[g.imageSize];
    }
  }

  /** The bytes of each of a list of images. */
  ghost function Contents(images: seq<Image>): (s: seq<seq<byte>>)
    reads set image | image in images :: image.imageData
    ensures |s| == |images|
    ensures forall i :: 0 <= i < |images| ==> s[i] == images[i].imageData[..]
  {
    if images == [] then [] else [images[0].imageData[..]] + Contents(images[1..])
  }

  ghost predicate Distinct(images: seq<Image>) {
    forall i, j :: 0 <= i < j < |images| ==> images[i].imageData != images[j].imageData
  }

  ghost predicate Disjoint(images: seq<Image>, others: seq<Image>) {
    forall i, j :: 0 <= i < |images| && 0 <= j < |others| ==> images[i].imageData != others[j].imageData
  }

  ghost predicate Fits(g: Geometry, images: seq<Image>) {
    forall i :: 0 <= i < |images| ==>
      images[i].geometry == g && images[i].imageData.Length == g.imageSize
  }

  /** Full frames with their row padding removed. */
  ghost function WithoutPadding(g: Geometry, images: seq<seq<byte>>): (s: seq<seq<byte>>)
    requires g.Valid()
    requires forall i :: 0 <= i < |images| ==> |images[i]| == g.imageSize
  {
    seq(|images|, i requires 0 <= i < |images| => Pixels(g, images[i], g.frameBytes))
  }

  lemma PieceExtendsPixels(g: Geometry, image: seq<byte>, w: nat, piece: seq<byte>)
    requires g.Valid() && |image| == g.imageSize && w + |piece| <= g.imageSize
    requires w % g.widthStep < g.rowBytes && w % g.widthStep + |piece| <= g.rowBytes
    requires PixelsBefore(g, w) + |piece| <= g.frameBytes
    ensures Pixels(g, Overwrite(image, w, piece), PixelsBefore(g, w) + |piece|)
         == Pixels(g, image, PixelsBefore(g, w)) + piece
  {
    PixelsBeforeInverse(g, w);
    hide PixelsBefore, Geometry.Sized, Pos;
    CopyExtendsPixels(g, image, Overwrite(image, w, piece), PixelsBefore(g, w), piece);
  }

  /** A completed frame is one more block of pixels, an incomplete one is none. */
  lemma PixelsFilled(g: Geometry, images: seq<seq<byte>>, filled: seq<byte>, frame: seq<byte>)
    requires g.Valid() && |filled| == g.imageSize && |frame| <= g.frameBytes
    requires Pixels(g, filled, |frame|) == frame
    requires forall i :: 0 <= i < |images| ==> |images[i]| == g.imageSize
    ensures |frame| == g.frameBytes ==>
      && WithoutPadding(g, images + [filled]) == WithoutPadding(g, images) + Blocks(g.frameBytes, frame)
      && Rest(g.frameBytes, frame) == []
    ensures |frame| < g.frameBytes ==>
      && WithoutPadding(g, images) == WithoutPadding(g, images) + Blocks(g.frameBytes, frame)
      && Rest(g.frameBytes, frame) == frame
  {
    OneBlock(g.frameBytes, frame);
    assert WithoutPadding(g, images) == WithoutPadding(g, images) + [];
    assert |frame| == g.frameBytes ==>
      WithoutPadding(g, images + [filled]) == WithoutPadding(g, images) + [frame];
  }

  /** What happens to a decoder: a piece of data is written, or another thread returns a frame. */
  datatype Event = Written(data: seq<byte>) | Returned(frame: Image)

  /** The data written, as one. */
  function WrittenIn(events: seq<Event>): seq<byte> {
    if events == [] then []
    else if events[0].Written? then events[0].data + WrittenIn(events[1..])
    else WrittenIn(events[1..])
  }

  function ReturnedIn(events: seq<Event>): seq<Image> {
    if events == [] then []
    else if events[0].Returned? then [events[0].frame] + ReturnedIn(events[1..])
    else ReturnedIn(events[1..])
  }

  function DataOf(images: seq<Image>): set<array<byte>> {
    set image | image in images :: image.imageData
  }

  lemma NoEvents(size: nat, ready: seq<seq<byte>>, partial: seq<byte>)
    requires |partial| < size
    ensures WrittenIn([]) == []
    ensures ready == ready + Blocks(size, partial + []) && partial == Rest(size, partial + [])
  {
    assert partial + [] == partial;
  }

  lemma FirstEvent(events: seq<Event>)
    requires events != []
    ensures events[0].Written? ==>
      WrittenIn(events) == events[0].data + WrittenIn(events[1..]) && ReturnedIn(events) == ReturnedIn(events[1..])
    ensures events[0].Returned? ==>
      WrittenIn(events) == WrittenIn(events[1..]) && ReturnedIn(events) == [events[0].frame] + ReturnedIn(events[1..])
  {
  }

  /** Cutting twice is cutting once. */
  lemma CutTwice(size: nat, ready: seq<seq<byte>>, partial: seq<byte>, a: seq<byte>, b: seq<byte>,
                 ready': seq<seq<byte>>, partial': seq<byte>, ready'': seq<seq<byte>>, partial'': seq<byte>)
    requires size > 0
    requires ready' == ready + Blocks(size, partial + a) && partial' == Rest(size, partial + a)
    requires ready'' == ready' + Blocks(size, partial' + b) && partial'' == Rest(size, partial' + b)
    ensures ready'' == ready + Blocks(size, partial + (a + b)) && partial'' == Rest(size, partial + (a + b))
  {
    hide Blocks, Rest;
    BlocksAppend(size, partial + a, b);
    assert partial + a + b == partial + (a + b);
    assert ready + (Blocks(size, partial + a) + Blocks(size, partial' + b))
        == ready + Blocks(size, partial + a) + Blocks(size, partial' + b);
  }

  class Decoder {
    const geometry: Geometry
    var freeFrames: seq<Image>
    var readyFrames: seq<Image>
    var writeOffset: nat

    ghost predicate Valid()
      reads this
    {
      && geometry.Valid()
      && Fits(geometry, freeFrames) && Fits(geometry, readyFrames)
      && Distinct(freeFrames) && Distinct(readyFrames) && Disjoint(freeFrames, readyFrames)
      && writeOffset < geometry.imageSize
      && (freeFrames == [] ==> writeOffset == 0)
    }

    ghost function All(): seq<Image>
      reads this
    {
      readyFrames + freeFrames
    }

    ghost function Images(): set<Image>
      reads this
    {
      set image | image in All()
    }

    ghost function FreeData(): set<array<byte>>
      reads this
    {
      set image | image in freeFrames :: image.imageData
    }

    ghost function ReadyData(): set<array<byte>>
      reads this
    {
      set image | image in readyFrames :: image.imageData
    }

    /** The completed frames waiting to be fetched, oldest first. */
    ghost function Ready(): (s: seq<seq<byte>>)
      reads this, ReadyData()
    {
      Contents(readyFrames)
    }

    /** The bytes already received of the frame being assembled. */
    ghost function Partial(): (s: seq<byte>)
      requires Valid()
      reads this, FreeData()
      ensures |s| == writeOffset
    {
      if freeFrames == [] then [] else freeFrames[0].imageData[..writeOffset]
    }

    ghost function ReadyPixels(): seq<seq<byte>>
      requires Valid()
      reads this, ReadyData()
    {
      WithoutPadding(geometry, Ready())
    }

    /** The pixel bytes already received of the frame being assembled. */
    ghost function PartialPixels(): (s: seq<byte>)
      requires Valid() && OutsidePadding()
      reads this, FreeData()
      ensures |s| < geometry.frameBytes
    {
      PixelsBeforeInverse(geometry, writeOffset);
      if freeFrames == [] then []
      else Pixels(geometry, freeFrames[0].imageData[..], PixelsBefore(geometry, writeOffset))
    }

    ghost predicate OutsidePadding()
      reads this
    {
      geometry.Valid() && writeOffset % geometry.widthStep < geometry.rowBytes
    }

    constructor (g: Geometry)
      requires g.Valid()
      ensures Valid() && geometry == g && freeFrames == [] && readyFrames == [] && writeOffset == 0
    {
      geometry := g;
      freeFrames, readyFrames, writeOffset := [], [], 0;
      new;
    }

    /** The images in the order they are filled, completed ones first, only ever grow by new
        ones; completed ones keep their place; and what is free was free or is new. */
    twostate predicate KeepsImages()
      reads this
    {
      && old(All()) <= All()
      && old(readyFrames) <= readyFrames
      && (forall image :: image in freeFrames ==> image in old(freeFrames) || New(image))
      && (forall image :: image in readyFrames ==>
            image in old(readyFrames) || image in old(freeFrames) || New(image))
    }

    twostate predicate New(new image: Image) {
      fresh(image) && fresh(image.imageData)
    }

    twostate lemma KeepsOwned()
      requires KeepsImages()
      ensures old(Images()) <= Images()
      ensures forall image :: image in Images() ==> image in old(Images()) || New(image)
    {
      forall image | image in Images() ensures image in old(Images()) || New(image) {
        assert image in readyFrames || image in freeFrames;
      }
    }

    /** An image the decoder does not own stays apart from its images. */
    twostate lemma KeepsApart(image: Image)
      requires KeepsImages()
      requires old(Disjoint([image], freeFrames) && Disjoint([image], readyFrames))
      ensures Disjoint([image], freeFrames) && Disjoint([image], readyFrames)
    {
      forall j | 0 <= j < |freeFrames| ensures freeFrames[j].imageData != image.imageData {
        assert freeFrames[j] in freeFrames && [image][0] == image;
      }
      forall j | 0 <= j < |readyFrames| ensures readyFrames[j].imageData != image.imageData {
        assert readyFrames[j] in readyFrames && [image][0] == image;
      }
    }

    /** Hands out the oldest completed frame, or none. */
    method GetFrame() returns (frame: Image?)
      requires Valid()
      modifies this`readyFrames
      ensures Valid()
      ensures old(readyFrames) == [] ==> frame == null && readyFrames == []
      ensures old(readyFrames) != [] ==> frame == old(readyFrames[0]) && readyFrames == old(readyFrames[1..])
    {
      if |readyFrames| > 0 {
        frame, readyFrames := readyFrames[0], readyFrames[1..];
      } else {
        frame := null;
      }
    }

    /** Takes back a frame that was handed out. It goes behind the frame being assembled. */
    method ReturnFrame(frame: Image)
      requires Valid()
      requires Fits(geometry, [frame]) && Disjoint([frame], freeFrames) && Disjoint([frame], readyFrames)
      modifies this`freeFrames
      ensures Valid() && freeFrames == old(freeFrames) + [frame]
      ensures Partial() == old(Partial()) && ReadyPixels() == old(ReadyPixels())
      ensures OutsidePadding() ==> PartialPixels() == old(PartialPixels())
    {
      PixelsBeforeZero(geometry);
      freeFrames := freeFrames + [frame];
    }

    method GetCurrentFrame() returns (frame: Image)
      requires Valid()
      modifies this`freeFrames
      ensures Valid()
      ensures freeFrames != [] && frame == freeFrames[0]
      ensures if old(freeFrames) != [] then freeFrames == old(freeFrames)
              else freeFrames == [frame] && New(frame)
      ensures Ready() == old(Ready()) && Partial() == old(Partial()) && KeepsImages()
      ensures ReadyPixels() == old(ReadyPixels())
      ensures OutsidePadding() ==> PartialPixels() == old(PartialPixels())
    {
      PixelsBeforeZero(geometry);
      if |freeFrames| == 0 {
        var image := new Image(geometry);
        freeFrames := [image];
      }
      frame := freeFrames[0];
    }

    method CurrentFrameComplete()
      requires Valid()
      modifies this
      ensures Valid()
      ensures old(freeFrames) != [] ==>
        readyFrames == old(readyFrames) + [old(freeFrames[0])] && freeFrames == old(freeFrames[1..]) && writeOffset == 0
      ensures old(freeFrames) == [] ==> unchanged(this)
      ensures old(freeFrames) != [] ==> Ready() == old(Ready()) + [old(freeFrames[0].imageData[..])]
      ensures KeepsImages()
    {
      if |freeFrames| > 0 {
        ContentsAppend(readyFrames, freeFrames[0]);
        readyFrames, freeFrames, writeOffset := readyFrames + [freeFrames[0]], freeFrames[1..], 0;
      }
    }

    /** Copies bytes to the write offset of the frame being assembled. */
    method CopyToCurrentFrame(bytes: seq<byte>) returns (frame: Image, ghost image: seq<byte>)
      requires Valid() && writeOffset + |bytes| <= geometry.imageSize
      modifies this`freeFrames, FreeData()
      ensures Valid() && KeepsImages() && readyFrames == old(readyFrames)
      ensures freeFrames != [] && frame == freeFrames[0] && |image| == geometry.imageSize
      ensures Ready() == old(Ready())
      ensures old(freeFrames) != [] ==>
        freeFrames == old(freeFrames) && image == old(freeFrames[0].imageData[..])
      ensures frame.imageData[..] == Overwrite(image, writeOffset, bytes)
      ensures frame.imageData[..writeOffset + |bytes|] == old(Partial()) + bytes
    {
      ghost var partial := Partial();
      frame := GetCurrentFrame();
      image := frame.imageData[..];
      assert bytes[0..|bytes|] == bytes;
      assert frame.imageData[..writeOffset] == partial;
      Memcpy(frame.imageData, writeOffset, bytes, 0, |bytes|);
    }

    /** Moves the write offset; at offset 0 the frame being assembled is complete. */
    method MoveTo(offset: nat)
      requires Valid() && freeFrames != [] && offset < geometry.imageSize
      modifies this
      ensures Valid() && KeepsImages() && writeOffset == offset
      ensures offset != 0 ==>
        freeFrames == old(freeFrames) && readyFrames == old(readyFrames) && Ready() == old(Ready())
      ensures offset == 0 ==>
        freeFrames == old(freeFrames[1..]) && Ready() == old(Ready()) + [old(freeFrames[0].imageData[..])]
    {
      writeOffset := offset;
      if writeOffset == 0 {
        CurrentFrameComplete();
      }
    }

    /** One round of the padded writer's loop. */
    method WritePaddedChunk(chunk: seq<byte>)
      requires Valid() && 0 < |chunk| <= geometry.imageSize - writeOffset
      modifies this, FreeData()
      ensures Valid() && KeepsImages()
      ensures Ready() == old(Ready()) + Blocks(geometry.imageSize, old(Partial()) + chunk)
      ensures Partial() == Rest(geometry.imageSize, old(Partial()) + chunk)
    {
      hide Blocks, Rest, Contents;
      OneBlock(geometry.imageSize, Partial() + chunk);
      SlotIsModulo(writeOffset, |chunk|, geometry.imageSize);
      var currentFrame, _ := CopyToCurrentFrame(chunk);
      assert writeOffset + |chunk| == geometry.imageSize ==>
        currentFrame.imageData[..] == old(Partial()) + chunk;
      MoveTo((writeOffset + |chunk|) % geometry.imageSize);
    }

    /** Cuts data into images, continuing the partly received one. */
    method WritePaddedFrameData(data: seq<byte>)
      requires Valid()
      modifies this, FreeData()
      ensures Valid() && KeepsImages()
      ensures Ready() == old(Ready()) + Blocks(geometry.imageSize, old(Partial()) + data)
      ensures Partial() == Rest(geometry.imageSize, old(Partial()) + data)
    {
      hide Blocks, Rest, Cutting, Contents, Fits, Distinct, Disjoint, Geometry.Sized, Ready, Partial;
      hide Decoder.Valid;
      PartialIsShort();
      var offset := 0;
      var _ := GetCurrentFrame();
      ghost var size, ready, partial := geometry.imageSize, Ready(), Partial();
      CutBegin(size, ready, partial, data);
      while offset < |data|
        invariant Valid() && KeepsImages()
        invariant 0 <= offset <= |data|
        invariant Cutting(size, ready, partial, data, offset, Ready(), Partial())
      {
        ghost var wasReady, wasPartial := Ready(), Partial();
        OffsetInImage();
        var next := offset + Min(geometry.imageSize - writeOffset, |data| - offset);
        WritePaddedChunk(data[offset..next]);
        CutMore(size, ready, partial, data, offset, next, wasReady, wasPartial, Ready(), Partial());
        offset := next;
      }
      CutEnd(size, ready, partial, data, offset, Ready(), Partial());
    }

    method GetRowPadding() returns (padding: nat)
      requires Valid()
      modifies this`freeFrames
      ensures Valid() && KeepsImages() && padding == geometry.Padding()
      ensures Ready() == old(Ready()) && Partial() == old(Partial())
      ensures ReadyPixels() == old(ReadyPixels())
      ensures OutsidePadding() ==> PartialPixels() == old(PartialPixels())
      ensures old(freeFrames) != [] ==> freeFrames == old(freeFrames)
    {
      var frame := GetCurrentFrame();
      padding := frame.geometry.widthStep - frame.geometry.rowBytes;
    }

    /** The write offset after k more bytes of the row, skipping the padding at its end. */
    method OffsetAfter(k: nat) returns (offset: nat)
      requires Valid() && OutsidePadding() && geometry.Padding() > 0
      requires 0 < k && writeOffset % geometry.widthStep + k <= geometry.rowBytes && freeFrames != []
      modifies this`freeFrames
      ensures freeFrames == old(freeFrames)
      ensures offset == NextOffset(geometry, writeOffset, k) < geometry.imageSize
    {
      NextOffsetAdvances(geometry, writeOffset, k);
      offset := writeOffset + k;
      if offset % geometry.widthStep == geometry.rowBytes {
        var padding := GetRowPadding();
        offset := (offset + padding) % geometry.imageSize;
      }
    }

    /** One round of the unpadded writer's loop: copies a piece of a row. */
    method WriteRowPiece(piece: seq<byte>)
      requires Valid() && OutsidePadding() && geometry.Padding() > 0
      requires 0 < |piece| && writeOffset % geometry.widthStep + |piece| <= geometry.rowBytes
      modifies this, FreeData()
      ensures Valid() && KeepsImages() && OutsidePadding()
      ensures ReadyPixels() == old(ReadyPixels()) + Blocks(geometry.frameBytes, old(PartialPixels()) + piece)
      ensures PartialPixels() == Rest(geometry.frameBytes, old(PartialPixels()) + piece)
    {
      hide PixelsBefore, NextOffset, Geometry.Sized, Blocks, Rest, Contents, WithoutPadding, Pixels, Overwrite;
      ghost var w, ready, partial := writeOffset, Ready(), PartialPixels();
      NextOffsetAdvances(geometry, w, |piece|);
      PixelsBeforeZero(geometry);
      var _, image := CopyToCurrentFrame(piece);
      assert Pixels(geometry, image, PixelsBefore(geometry, w)) == partial;
      PieceExtendsPixels(geometry, image, w, piece);
      PixelsFilled(geometry, ready, Overwrite(image, w, piece), partial + piece);
      var offset := OffsetAfter(|piece|);
      MoveTo(offset);
      assert Ready() == if offset == 0 then ready + [Overwrite(image, w, piece)] else ready;
    }

    /** Cuts pixel bytes into frames, continuing the partly received one and skipping the row
        padding of the images. */
    method WriteUnpaddedFrameData(data: seq<byte>)
      requires Valid() && OutsidePadding()
      modifies this, FreeData()
      ensures Valid() && KeepsImages() && OutsidePadding()
      ensures ReadyPixels() == old(ReadyPixels()) + Blocks(geometry.frameBytes, old(PartialPixels()) + data)
      ensures PartialPixels() == Rest(geometry.frameBytes, old(PartialPixels()) + data)
    {
      var padding := GetRowPadding();
      if padding == 0 {
        NoPadding();
        WritePaddedFrameData(data);
        NoPadding();
      } else {
        WriteRows(data);
      }
    }

    /** The copying loop of the unpadded writer. */
    method WriteRows(data: seq<byte>)
      requires Valid() && OutsidePadding() && geometry.Padding() > 0
      modifies this, FreeData()
      ensures Valid() && KeepsImages() && OutsidePadding()
      ensures ReadyPixels() == old(ReadyPixels()) + Blocks(geometry.frameBytes, old(PartialPixels()) + data)
      ensures PartialPixels() == Rest(geometry.frameBytes, old(PartialPixels()) + data)
    {
      hide Blocks, Rest, Cutting, Contents, Fits, Distinct, Disjoint, Geometry.Sized, ReadyPixels, PartialPixels;
      hide Decoder.Valid;
      PartialIsShort();
      var offset := 0;
      var _ := GetCurrentFrame();
      ghost var size, ready, partial := geometry.frameBytes, ReadyPixels(), PartialPixels();
      CutBegin(size, ready, partial, data);
      while offset < |data|
        invariant Valid() && KeepsImages() && OutsidePadding()
        invariant 0 <= offset <= |data|
        invariant Cutting(size, ready, partial, data, offset, ReadyPixels(), PartialPixels())
      {
        ghost var wasReady, wasPartial := ReadyPixels(), PartialPixels();
        RoomInRow();
        var rowWidthRemaining := geometry.rowBytes - writeOffset % geometry.widthStep;
        var next := offset + Min(rowWidthRemaining, |data| - offset);
        WriteRowPiece(data[offset..next]);
        CutMore(size, ready, partial, data, offset, next, wasReady, wasPartial, ReadyPixels(), PartialPixels());
        offset := next;
      }
      CutEnd(size, ready, partial, data, offset, ReadyPixels(), PartialPixels());
    }

    /** Images that may be returned, in this order: they could be the decoder's, but are not. */
    ghost predicate MayReturn(images: seq<Image>)
      reads this
    {
      Fits(geometry, images) && Distinct(images) && Disjoint(images, freeFrames) && Disjoint(images, readyFrames)
    }

    /** Writing data does not take them. */
    twostate lemma StillMayReturn(images: seq<Image>)
      requires old(MayReturn(images)) && KeepsImages()
      ensures MayReturn(images)
    {
      forall i | 0 <= i < |images| ensures Disjoint([images[i]], freeFrames) && Disjoint([images[i]], readyFrames) {
        KeepsApart(images[i]);
      }
      forall i, j | 0 <= i < |images| && 0 <= j < |freeFrames|
        ensures images[i].imageData != freeFrames[j].imageData
      {
        assert [images[i]][0] == images[i];
      }
      forall i, j | 0 <= i < |images| && 0 <= j < |readyFrames|
        ensures images[i].imageData != readyFrames[j].imageData
      {
        assert [images[i]][0] == images[i];
      }
    }

    lemma FirstMayReturn(images: seq<Image>, frame: Image, rest: seq<Image>)
      requires MayReturn(images) && images == [frame] + rest
      ensures Fits(geometry, [frame]) && Disjoint([frame], freeFrames) && Disjoint([frame], readyFrames)
      ensures Fits(geometry, rest) && Distinct(rest)
      ensures Disjoint(rest, freeFrames + [frame]) && Disjoint(rest, readyFrames)
    {
      assert images[0] == frame && forall i :: 0 <= i < |rest| ==> rest[i] == images[i + 1];
    }

    lemma RestMayReturn(images: seq<Image>)
      requires Fits(geometry, images) && Distinct(images)
      requires Disjoint(images, freeFrames) && Disjoint(images, readyFrames)
      ensures MayReturn(images)
    {
    }

    /** The unpadded writer while other threads return frames: its rounds write the data piece by
        piece, and frames may come back between them. What is completed and held is what the
        data alone makes it. */
    method WriteAmidReturns(events: seq<Event>)
      requires Valid() && OutsidePadding() && MayReturn(ReturnedIn(events))
      modifies this, FreeData(), DataOf(ReturnedIn(events))
      ensures Valid() && OutsidePadding()
      ensures ReadyPixels()
           == old(ReadyPixels()) + Blocks(geometry.frameBytes, old(PartialPixels()) + WrittenIn(events))
      ensures PartialPixels() == Rest(geometry.frameBytes, old(PartialPixels()) + WrittenIn(events))
      decreases |events|
    {
      hide Blocks, Rest, ReadyPixels, PartialPixels, Decoder.Valid, Fits, Distinct, Disjoint, WrittenIn, ReturnedIn,
        Decoder.MayReturn;
      PartialIsShort();
      ghost var size, ready, partial := geometry.frameBytes, ReadyPixels(), PartialPixels();
      if events == [] {
        NoEvents(size, ready, partial);
        return;
      }
      FirstEvent(events);
      ghost var rest := ReturnedIn(events[1..]);
      match events[0] {
        case Written(data) =>
          WriteUnpaddedFrameData(data);
          StillMayReturn(rest);
          ghost var ready', partial' := ReadyPixels(), PartialPixels();
          WriteAmidReturns(events[1..]);
          CutTwice(size, ready, partial, data, WrittenIn(events[1..]), ready', partial',
                   ReadyPixels(), PartialPixels());
        case Returned(frame) =>
          FirstMayReturn(ReturnedIn(events), frame, rest);
          ReturnFrame(frame);
          RestMayReturn(rest);
          WriteAmidReturns(events[1..]);
      }
    }

    lemma RoomInRow()
      requires OutsidePadding()
      ensures geometry.widthStep > 0 && writeOffset % geometry.widthStep < geometry.rowBytes
    {
    }

    lemma OffsetInImage()
      requires Valid()
      ensures writeOffset < geometry.imageSize
    {
    }

    lemma ReadyIsFull()
      requires Valid()
      ensures forall i :: 0 <= i < |Ready()| ==> |Ready()[i]| == geometry.imageSize
      ensures ReadyPixels() == WithoutPadding(geometry, Ready())
      ensures readyFrames == [] ==> ReadyPixels() == []
    {
    }

    /** The partly received frame is shorter than a whole one. */
    lemma PartialIsShort()
      requires Valid()
      ensures geometry.Valid() && |Partial()| < geometry.imageSize
      ensures OutsidePadding() ==> |PartialPixels()| < geometry.frameBytes
    {
    }

    /** Without padding, pixels and bytes are the same thing. */
    lemma NoPadding()
      requires Valid() && geometry.Padding() == 0
      ensures OutsidePadding() && geometry.frameBytes == geometry.imageSize
      ensures ReadyPixels() == Ready() && PartialPixels() == Partial()
    {
      PixelsBeforeInverse(geometry, writeOffset);
      PixelsBeforeSame(geometry, writeOffset);
      var images := Ready();
      forall i | 0 <= i < |images| ensures Pixels(geometry, images[i], geometry.frameBytes) == images[i] {
        PixelsUnpadded(geometry, images[i], geometry.frameBytes);
        assert images[i][..geometry.imageSize] == images[i];
      }
      assert WithoutPadding(geometry, images) == images;
      if freeFrames != [] {
        PixelsUnpadded(geometry, freeFrames[0].imageData[..], writeOffset);
        assert freeFrames[0].imageData[..][..writeOffset] == freeFrames[0].imageData[..writeOffset];
      }
    }
  }

  /** What a decoder has completed and holds after any number of calls, each doing what
      WritePaddedFrameData promises. */
  function RawCalls(size: nat, partial: seq<byte>, calls: seq<seq<byte>>): (r: (seq<seq<byte>>, seq<byte>))
    requires size > 0
    decreases |calls|
  {
    if calls == [] then ([], partial)
    else
      var received := partial + calls[0];
      var (frames, rest) := RawCalls(size, Rest(size, received), calls[1..]);
      (Blocks(size, received) + frames, rest)
  }

  /** How the stream is cut into calls does not matter: they complete the frames of the stream
      read whole. */
  lemma {:induction false} RawCallsWhole(size: nat, partial: seq<byte>, calls: seq<seq<byte>>)
    requires |partial| < size
    ensures RawCalls(size, partial, calls)
         == (Blocks(size, partial + Flatten(calls)), Rest(size, partial + Flatten(calls)))
    decreases |calls|
  {
    if calls == [] {
      assert partial + Flatten(calls) == partial;
    } else {
      var received, more := partial + calls[0], Flatten(calls[1..]);
      RawCallsWhole(size, Rest(size, received), calls[1..]);
      BlocksAppend(size, received, more);
      hide Blocks, Rest;
      assert received + more == partial + Flatten(calls);
    }
  }

  /** One more call. */
  lemma {:induction false} RawCallsMore(size: nat, partial: seq<byte>, calls: seq<seq<byte>>, data: seq<byte>)
    requires |partial| < size
    ensures var (frames, rest) := RawCalls(size, partial, calls);
      RawCalls(size, partial, calls + [data]) == (frames + Blocks(size, rest + data), Rest(size, rest + data))
    decreases |calls|
  {
    hide Blocks, Rest;
    if calls == [] {
      assert [data][1..] == [];
      assert Blocks(size, partial + data) + [] == [] + Blocks(size, partial + data);
    } else {
      var received := partial + calls[0];
      var (frames, rest) := RawCalls(size, Rest(size, received), calls[1..]);
      RawCallsMore(size, Rest(size, received), calls[1..], data);
      assert (calls + [data])[1..] == calls[1..] + [data];
      assert Blocks(size, received) + (frames + Blocks(size, rest + data))
          == Blocks(size, received) + frames + Blocks(size, rest + data);
    }
  }

  lemma {:induction false} ContentsAppend(images: seq<Image>, image: Image)
    ensures Contents(images + [image]) == Contents(images) + [image.imageData[..]]
  {
  }
}
