# SVR data path: verification model

SVR is a video server: sources produce frames, streams attached to them encode the frames and
send them to clients, and clients decode them. This project models the data path from a server
source to a client's decoder in Dafny, together with the protocol and the memory structures it
uses, and proves that it delivers what it is given.

Check it with `dafny verify dfyconfig.toml`.

## How it is built

| file | models |
|---|---|
| `Encoder.dfy` | the encoder's growable ring buffer, refined to a queue of bytes |
| `Geometry.dfy`, `Decoder.dfy` | row padding, and the decoder that assembles bytes into frames |
| `Pack.dfy`, `Message.dfy`, `Net.dfy` | the wire format, message framing, partial transfers |
| `Jpeg.dfy`, `JpegStream.dfy` | length-prefixed frames and their reassembly, and which calls it is right for |
| `StreamWorker.dfy`, `EndToEnd.dfy` | the sending loop, and many streams over one connection |
| `ClientStream.dfy` | the client's latest-frame hand-off, for raw and jpeg streams |
| `ResponseSet.dfy`, `Comm.dfy` | request ids, and the request/response protocol |
| `RefCount.dfy`, `SourceFrame.dfy`, `Registry.dfy` | reference counts, shared source frames, the source registry |
| `Provider.dfy` | the sources clients provide, and closing a client |
| `BlockAlloc.dfy`, `ArenaModel.dfy`, `Arena.dfy` | the block allocator and the arena on top of it |
| `MemPool.dfy` | any number of arenas over the same allocators |
| `Texts.dfy`, `OptionText.dfy`, `OptionError.dfy`, `OptionString.dfy` | option strings: grammar and meaning, where an error is, and the in-place parser |
| `FrameProperties.dfy` | the text form of frame properties |
| `Router.dfy` | the search for a request's handler |
| `ServerStream.dfy` | what a server stream does to frames before they are encoded |
| `Bytes.dfy`, `Arithmetic.dfy`, `Basics.dfy` | cutting and joining byte strings; division; optional values, addresses |

The client sends the frames of a source it provides with the same loop (`lib/source.c:248-258`),
so what is proved of the sending discipline holds there too. The server reads a payload only when
it is larger than `payload_buffer_size`, which is 0 and stays so (`server/client.c:51`, `293`):
every payload is read, as by the client.

Code that works in place is a class or a method with loops whose contract ties the new state to
a function of the old one; what that function means is then stated by lemmas about it. Code that
runs in several threads is a state machine whose steps are the regions run under one lock, or one
message moving; its theorems are about every run. Waiting is the guard of a step.

Where the code and its documentation disagree, the model follows the code:

- The comment on option strings says that white space around values is removed. The value scanner
  keeps it behind the value (`lib/optionstring.c:164-175`). `OptionText.TrimmingNeedsNone` says
  exactly when a text gets its documented meaning all the same.
- A failed request-id allocation returns -1 with the lock still held (`lib/responseset.c:77-79`).
  In the protocol a reservation is a step only when it succeeds.
- JPEG reassembly takes `min(n, bytes_needed)` bytes although part of the frame may be there
  already (`lib/encodings/jpeg.c:266`). `JpegStreams.DecodeExact` gives the exact condition for a
  call to be right, `JpegStreams.RunExact` for a run of calls, and `JpegStreams.SenderDiscipline`
  shows that the sender meets it.
- The length of a packed message is summed in 16 bits (`lib/message.c:34-40`).
  `Messages.Pack` fits its buffer exactly when the sum does not wrap.
- A source may change its frame properties until it has started, although streams may be attached
  (`server/source.c:274-286`). `ServerStreams.ChangeOfSource` says exactly when they survive it.
- The client's router sorts its table in `SVR_MessageRouter_init` (`lib/messagerouting.c:41-44`),
  which nothing calls. By `Router.SearchExact` the search is right for every request exactly when
  the table is sorted; `Router.ClientTableFails` says that this one is not, and
  `Router.ClientTableSearched` which of its three names are found all the same.
- A client's list of the sources it provides holds pointers without references
  (`server/client.c:63-65`). `Providers.PointersValid` shows that they are used only while valid if
  the client's own thread closes it, and `Providers.KickFromOutsideBreaks` that a kick by the
  thread that shuts the server down (`server/client.c:24-33`) can break this.
- The last chunk of an arena is never searched (`lib/mempool.c:193`), so an arena of one chunk
  always grows. The model does the same.

## Model

| member | source | states |
|---|---|---|
| Encoders.Encoder.DataReady | lib/encoding.c:178-184 | the result is the number of unread bytes of the ring, wrapped or not |
| Encoders.Encoder.ReadData | lib/encoding.c:198-212 | a read removes exactly the first min(ready, size) bytes of the queue, puts them at the front of the destination and writes nothing behind them |
| Encoders.Encoder.ProvideData | lib/encoding.c:225-266 | a provide appends exactly its bytes to the queue; the buffer grows only when needed, and to used + n + 1 slots, so that full is never mistaken for empty |
| Encoders.Encoder.Store | lib/encoding.c:255-263 | the copying half, in one piece or two, appends the bytes when a slot stays free |
| Encoders.Encoder.Grow | lib/encoding.c:235-253 | growing, by un-wrapping through a temporary or in place, leaves the queue as it was |
| Encoders.ReadTakesFront | lib/encoding.c:203-208 | on the ring as a sequence: the one or two pieces read are the front of the queue, and advancing the read index drops exactly them |
| Encoders.WriteAppends | lib/encoding.c:255-263 | on the ring as a sequence: writing behind the write index appends, provided one slot stays free, whatever the wrap |
| Encoders.GrowInPlace | lib/encoding.c:248-252 | a queue that is not wrapped is unchanged by slots added at the end |
| Bytes.BlocksAppend | lib/encoding.c:440-460 | cutting a stream into fixed-size blocks does not depend on how it was cut into writes: the blocks of s + t are those of s and those of what s left over, followed by t |
| Bytes.BlocksConserve | lib/encoding.c:440-460 | blocks and rest joined are the input: nothing is lost, added or reordered |
| Bytes.BlocksOfFrames | lib/encodings/raw.c:19-25 | cutting the concatenation of frames of one size gives back the frames, with nothing left over |
| Bytes.ChunksJoin | server/stream.c:354-374 | the pieces a frame is sent in are non-empty, no larger than the payload buffer, and join to the frame |
| Geometries.PosIncreases | lib/encoding.c:492-512 | pixel bytes go to increasing places of the image, so no two share one |
| Geometries.PosInImage | lib/encoding.c:492-512 | every pixel byte of a frame lies inside the image, and the place behind the last is exactly the image size |
| Geometries.PosInverse | lib/encoding.c:495-505 | from a pixel byte to its place and back: the place is outside the padding and stands for that many pixel bytes |
| Geometries.PixelsBeforeInverse | lib/encoding.c:495-505 | the other direction: an offset outside the padding is the place of the pixel byte it stands for, and inside the frame if it is inside the image |
| Geometries.CopyExtendsPixels | lib/encoding.c:495-500 | copying bytes that do not cross a row end extends the frame, padding removed, by exactly them |
| Geometries.NextOffsetAdvances | lib/encoding.c:499-510 | after every piece the write offset is again inside the pixels of a row, stands for that many more pixel bytes, stays inside the image, and is 0 exactly when the frame is full |
| Decoders.Decoder.GetFrame | lib/encoding.c:364-374 | hands out the oldest completed frame and keeps the order of the others |
| Decoders.Decoder.ReturnFrame | lib/encoding.c:385-389 | a returned frame goes behind the one being assembled, whose bytes are untouched |
| Decoders.Decoder.GetCurrentFrame | lib/encoding.c:399-410 | the head of the free list, newly allocated only when the list is empty; nothing received is lost |
| Decoders.Decoder.CurrentFrameComplete | lib/encoding.c:421-427 | the head of the free list becomes the newest completed frame |
| Decoders.Decoder.WritePaddedFrameData | lib/encoding.c:440-460 | completes exactly the image-size blocks of what was partly received followed by the data, and holds exactly the rest; only images that were free or are new are touched |
| Decoders.Decoder.WriteUnpaddedFrameData | lib/encoding.c:473-512 | with the row padding removed, completes exactly the frame-size blocks of the pixel bytes received, whether the fast path or the row loop runs; the write offset never rests inside padding |
| Decoders.Decoder.WriteAmidReturns | lib/encoding.c:385-389 | frames that other threads return between the rounds of the writer change neither what it completes nor what it holds |
| Decoders.Decoder.WriteRows | lib/encoding.c:488-512 | the copying loop ends and meets the specification of the fast path |
| Decoders.Decoder.NoPadding | lib/encoding.c:481-486 | without padding, pixels and bytes are the same thing, so the fast path agrees with the padding-skipping one |
| Decoders.Decoder.GetRowPadding | lib/encoding.c:525-535 | the padding of the image, found without changing what was received |
| Decoders.PixelsFilled | lib/encoding.c:507-510 | a full image is one more block of pixels, and one that is not full is none |
| Decoders.RawCallsWhole | lib/encodings/raw.c:19-25 | calling the padded writer any number of times completes the blocks of the stream read whole and holds its rest, however the stream was cut into calls |
| Decoders.RawCallsMore | lib/encodings/raw.c:19-25 | one more call completes the blocks of what was held and the new data, and holds their rest |
| Packing.Pack | lib/pack.c:37-83 | writes the items one behind the other and changes no other byte; at each item's offset stand its bytes, integers with the most significant byte first and cut to their width, texts with a terminator; the result is the offset behind them |
| Packing.HalfOrder | lib/pack.c:53-56 | the two bytes of a 16-bit value, the higher one first |
| Packing.WordOrder | lib/pack.c:58-61 | the four bytes of a 32-bit value, the highest one first |
| Packing.ItemsInOrder | lib/pack.c:44-78 | the k-th item stands behind the sizes of those in front of it |
| Packing.Unpack | lib/pack.c:96-128 | reads exactly the items at the offset; a value that is not wholly inside the buffer is an out-of-bounds read |
| Packing.DecodeOfEncodeAll | lib/pack.c:37-128 | unpacking undoes packing, wherever in a buffer the items lie and whatever follows, integers cut to the width of their field |
| Packing.Get32OfPut32 | lib/pack.c:58-61 | a 32-bit value comes back modulo 2^32 |
| Messages.Pack | lib/message.c:32-54 | succeeds exactly when the components take fewer than 65536 bytes, otherwise the wrapped length makes it write past its buffer; the bytes are header and components |
| Messages.PackedLayout | lib/message.c:45-48 | byte by byte: data length, request id, number of components and payload size, each in two bytes with the higher one first, and then each component with its terminator |
| Messages.WireLayout | lib/net.c:23-48 | the payload follows the packed message |
| Messages.Unpack | lib/message.c:65-81 | reads the message of the bytes, or reads past their end |
| Messages.UnpackOfPack | lib/message.c:32-81 | unpacking undoes packing for all messages whose fields fit |
| Messages.TextsExact | lib/message.c:76-78 | reading count strings stays inside the buffer exactly when it holds as many terminators, and what is read is what packing those strings would have written there |
| Messages.UnpackExact | lib/message.c:65-81 | unpacking received bytes stays inside them exactly when they hold a header and as many terminators as it announces components; the length field plays no part |
| Net.SendAll | lib/net.c:26-46 | whatever the partial sends, the bytes go out once and in order, or a prefix of them and an error |
| Net.SendMessage | lib/net.c:23-63 | all bytes of the message and its payload, or an error after some of them |
| Net.RecvAll | lib/net.c:78-93 | exactly len bytes are taken from the stream, unless it ends or a transfer fails first |
| Net.ReceiveMessage | lib/net.c:102-126 | the message at the front of the stream, the stream left behind it |
| Net.ReceiveWhole | lib/comm.c:79-99 | one round of the receive loop takes the message and its payload, and leaves the stream at the next message |
| Net.ReceiveThread | lib/comm.c:74-110 | what is handed on is a prefix of the messages in the stream, and all of them when no transfer fails, whatever the partial transfers |
| Net.ReadFrontOfWire | lib/net.c:102-144 | messages are self-delimiting: whatever follows, the front of the stream is the message that was sent |
| Net.ReadFrontOfPart | lib/net.c:102-144 | a proper prefix of a message is not taken for one |
| Net.ParseOfWire | lib/net.c:23-144 | receiving the concatenation of messages gives exactly the messages |
| Net.ParseOfPrefix | lib/net.c:23-144 | at any moment exactly the messages whose last byte has arrived have been received |
| Jpeg.TermDestination | lib/encodings/jpeg.c:149-157 | the frame's length in 4 bytes and its bytes are appended to the encoder's queue |
| Jpeg.FramedLayout | lib/encodings/jpeg.c:149-157 | four bytes of length, the highest one first, and then the frame |
| Jpeg.WriteScanlines | lib/encodings/jpeg.c:278-282 | row by row, the decoder gets exactly one frame more and is between frames again |
| Jpeg.JpegDecoder.Decode | lib/encodings/jpeg.c:247-289 | meets the specification DecodeData, whose meaning the lemmas of JpegStreams state: it faults, or hands over those frames and keeps that state; each frame becomes one decoded image |
| JpegStreams.DecodeExact | lib/encodings/jpeg.c:247-289 | a call keeps up with the stream exactly when its data does not run past the end of a frame begun in an earlier call and cuts no frame length in two |
| JpegStreams.RunExact | lib/encodings/jpeg.c:247-289 | a run of calls hands over exactly the frames of the stream read whole, and holds exactly the unfinished one, if and only if each call fits what is left of the stream there, which a sender can tell without running the decoder |
| JpegStreams.PiecesFitAlike | lib/encodings/jpeg.c:247-289 | what can be seen of the stream and what can be seen of the decoder give the same condition |
| JpegStreams.FramesInAppend | lib/encodings/jpeg.c:251-287 | the frames of a stream do not depend on where it was cut |
| JpegStreams.Overtaken | lib/encodings/jpeg.c:266-273 | once more bytes were taken for a frame than it has, no later data makes the decoder hand over a frame again |
| JpegStreams.Misfit | lib/encodings/jpeg.c:251-288 | a call that does not fit reads or writes outside its buffers, or takes more bytes for a frame than it has |
| JpegStreams.LengthCut | lib/encodings/jpeg.c:252-258 | a frame length cut in two is read past the end of the data, however many frames come before it |
| JpegStreams.OvertakenRun | lib/encodings/jpeg.c:266-273 | a decoder that has overtaken a frame never recovers, whatever calls follow |
| JpegStreams.SenderDiscipline | server/stream.c:350-374 | when every non-empty frame is drained in pieces of any size of at least 4 before the next is encoded, the frames handed to libjpeg are the frames compressed, in order |
| JpegStreams.BackToBackFaults | lib/encodings/jpeg.c:266-273 | a concrete stream of two frames, cut elsewhere, that makes the decoder fail |
| StreamWorkers.SendEncoded | server/stream.c:353-374 | all pieces of what the encoder holds go out in order and leave it empty, or the stream is paused at the first message the client does not take |
| StreamWorkers.NextMessage | server/stream.c:359-366 | the message carries the next piece of what the encoder holds, which then holds the pieces behind it |
| EndToEnd.StepKeepsInv | server/client.c:257-267 | every step of every thread keeps: decoder calls, messages in flight, encoder contents and frames to come are, in this order, the pieces of the stream's frames, for every stream |
| EndToEnd.DecoderCalls | lib/messagehandlers.c:43-53 | in every run and at every moment each decoder has been called with exactly the first pieces of its own stream's frames, and finally with all of them |
| EndToEnd.EveryRunCanFinish | lib/messagehandlers.c:43-53 | every run can go on until every stream has finished, and each decoder has then been called with all pieces of its own stream's frames |
| EndToEnd.DeliverHandsOn | lib/comm.c:101-107 | the oldest message in flight leaves it, and its payload is the next call of the decoder it is for, and of no other |
| EndToEnd.SendPutsInFlight | server/stream.c:354-374 | the next piece, as large as the payload buffer or all there is, joins the flight and leaves the encoder |
| EndToEnd.EncodeQueuesNext | server/stream.c:350-352 | the next frame goes into the empty encoder |
| EndToEnd.TransferMovesOldest | lib/net.c:78-93 | the oldest n bytes move, and what is in flight stays the same |
| EndToEnd.CanFinishStream | server/stream.c:350-374 | a stream can be brought to its end while the other workers rest |
| EndToEnd.RawEndToEnd | lib/encodings/raw.c:19-25 | raw streams multiplexed over one connection: in every interleaving and with every split by the network, the frames completed by the calls made to a decoder are the first frames of its own stream, byte for byte, and finally all of them |
| EndToEnd.JpegEndToEnd | lib/encodings/jpeg.c:149-157 | the same for the compressed frames that the calls made to a decoder hand to libjpeg |
| ClientStreams.ClientStream.ProvideData | lib/stream.c:606-619 | for raw and jpeg streams: a newly published frame is the last one that all calls so far complete, the older ones go back, neither the current frame nor any frame handed out is written, and what is handed out stays apart from all the stream's images; a fault is one of jpeg reassembly |
| ClientStreams.ClientStream.Publish | lib/stream.c:608-618 | the newest completed frame becomes current and the others, the replaced one included, go behind the partly filled frame |
| ClientStreams.ClientStream.GetFrame | lib/stream.c:493-506 | hands out the current frame, the last one completed; from then on it is held by the caller and the stream has no current frame |
| ClientStreams.ClientStream.ReturnFrame | lib/stream.c:517-521 | a frame that is held, and no other, goes back, behind the partly filled one, and the decoder keeps what it has of that |
| ClientStreams.ClientStream.Decode | lib/stream.c:606-606 | the call completes the frames the specification of its encoding says, and writes neither the current frame nor one handed out |
| ClientStreams.ClientStream.DecodeJpeg | lib/encodings/jpeg.c:247-289 | the images completed are those of the frames that all calls so far hand to libjpeg |
| ClientStreams.ClientStream.PublishNewest | lib/stream.c:608-618 | the newest frame becomes current; no image is lost or gained, and none that is current or handed out is the decoder's |
| ClientStreams.PublishedOutside | lib/stream.c:608-618 | on the lists: what is current or handed out is apart from the free list that the replaced frame and the older ones joined |
| ClientStreams.DecompressesMore | lib/encodings/jpeg.c:247-289 | one more call appends its images to those of the run |
| ResponseSets.ReserveSound | lib/responseset.c:68-97 | an id is refused exactly when all are in use and the set may not grow; a reserved one was free, no other slot changes, the next search starts behind it, the set grows only when every slot is in use, and the id sent is in 1..65535 |
| ResponseSets.ReserveNearest | lib/responseset.c:72-92 | of several free ids the one nearest behind the last one reserved is taken, going round |
| ResponseSets.ScanCovers | lib/responseset.c:72-76 | the circular scan comes round exactly when every slot is in use |
| ResponseSets.ResponseSet.GetRequestId | lib/responseset.c:68-97 | the scanning, growing loop ends and reserves the id of the specification, or returns -1 and changes nothing |
| ResponseSets.ResponseSet.GetResponse | lib/responseset.c:109-123 | yields the stored response and frees its slot only |
| ResponseSets.ResponseSet.SetResponse | lib/responseset.c:135-148 | stores the response exactly when the id is in use and changes nothing else; an id behind the arrays is an out-of-bounds access |
| Comm.StepKeepsInv | lib/comm.c:74-142 | every step of clients, receiver and server keeps the protocol invariant and stays inside the response arrays |
| Comm.ReserveKeepsInv | lib/responseset.c:68-97 | no id is handed out while a request or reply carrying it is open, or while another thread holds it |
| Comm.ReceiveKeepsInv | lib/comm.c:101-102 | an arriving reply belongs to the one thread that holds its id |
| Comm.GetResponseKeepsInv | lib/comm.c:137-139 | a thread gets the reply to its own request |
| Comm.RequestsMatchResponses | lib/comm.c:126-142 | over every interleaving, if the server answers each request at most once, every returning getResponse yields the reply to the request that thread sent |
| Comm.RepliesComeFromServer | lib/comm.c:74-142 | over every interleaving a returned reply has been all the way: the thread itself sent the request, the server received it, the server answered it, the answer arrived, in this order |
| Comm.RequestCanBeAnswered | lib/comm.c:126-142 | whatever else is open, from every state in which a thread has reserved an id some run goes on to where its own reply is returned |
| Comm.SentOnce | lib/comm.c:133-135 | a request is sent by one thread, once |
| Comm.ThreadSteps | lib/comm.c:126-142 | reserving gives a tag never used before and a pending slot; sending puts exactly the request behind those to the server and nothing elsewhere; fetching frees the slot |
| Comm.ServerSteps | server/client.c:183-186 | the server receives the oldest request, and answers a request it has received or never will |
| Comm.ReceiveStep | lib/comm.c:101-102 | the oldest reply is stored under its own id and nothing else changes |
| RefCounts.UnrefExact | lib/refcount.c:168-175 | giving up a reference is safe and queues the object exactly when it was the last |
| RefCounts.CollectExact | lib/refcount.c:123-141 | what is cleaned up has no reference left and is not queued a second time |
| RefCounts.NewExact | lib/refcount.c:88-98 | a new object has one reference and everybody else's count is unchanged |
| RefCounts.RefExact | lib/refcount.c:152-156 | a further reference to a live object leaves every count exact |
| SourceFrames.StepKeepsInv | server/source.c:292-362 | every step of decoder, producer, workers and collector is safe and keeps: counts are references, every image is in exactly one place |
| SourceFrames.FramesConserved | server/source.c:292-362 | over every interleaving: each frame's count is 1 if it is current plus the workers holding it, each image is in the free list, the ready list or one frame, and it goes back to the decoder never while held and never while on a list |
| SourceFrames.HeldUntilDropped | server/source.c:292-326 | over every interleaving: a frame a worker was given stays allocated, with its image and off the decoder's lists, until that worker lets go of it |
| SourceFrames.TakeStep | server/source.c:307-310 | a worker that takes a frame holds the current one, and that has one reference more |
| SourceFrames.LetGoStep | server/source.c:295-298 | a worker that lets go holds nothing, and the frame, one reference less, is garbage if it was the last |
| SourceFrames.DecoderSteps | lib/encoding.c:399-427 | an image is allocated only when none is free; the one at the head of the free list is completed |
| SourceFrames.PublishStep | server/source.c:343-356 | the oldest ready image becomes the current frame, with one reference, and the replaced frame loses one |
| SourceFrames.CollectorStep | server/source.c:321-326 | the oldest garbage is gone, with its counter, and its image goes behind the free ones |
| SourceFrames.Source.PublishAll | server/source.c:342-358 | all ready images are published in order, each at its own address, the newest is current in the end, and workers keep theirs |
| SourceFrames.Source.PublishFrame | server/source.c:344-357 | one round publishes the oldest ready image with one reference and takes one from the frame it replaces |
| SourceFrames.Source.GetFrame | server/source.c:292-315 | the worker's last frame loses a reference; a current frame at another address is returned, recorded as held by the worker, and has one reference more |
| SourceFrames.Source.ReleaseSourceFrame | server/source.c:321-326 | the oldest garbage frame is gone and its image is behind the free ones |
| Registry.StepKeepsInv | server/source.c:167-246 | every step of open, lookup, release, destroy and cleanup is safe and keeps the registry invariant, destroy with any pointer to a source that is still allocated |
| Registry.LookupKeepsCounts | server/source.c:36-61 | a registered source still has its own reference, so lookup never revives one whose count reached 0 |
| Registry.DropSelfKeepsCounts | server/source.c:243-245 | destroy gives up a self reference that is still there, and only once |
| Registry.NoReferences | server/source.c:197-210 | a source is cleaned up only when no reference to it, its own included, is left |
| Registry.ReleaseStep | lib/refcount.c:168-175 | letting go of a handle takes one reference from its source, which is queued if it was the last |
| Registry.CleanUpStep | lib/refcount.c:123-141 | the source queued first is cleaned up, with its counter, and no other |
| Registry.SourcesSafe | server/source.c:36-246 | over every interleaving: registered sources are alive, counts are exact, and cleanup runs at most once and never with a reference outstanding |
| Providers.StepKeepsInv | server/client.c:63-185 | sources that clients provide, whose lists hold plain pointers: every step of requests, of closing a client and of destroy keeps the pointers that may still be used valid, as long as a client is closed by its own thread |
| Providers.PointersValid | server/client.c:143-185 | over every such interleaving a pointer in a client's list is used only while its source is allocated, and each source destroyed when its client is closed is destroyed for the first time |
| Providers.ClosedClientsLeaveNothing | server/client.c:143-185 | over every such interleaving every client source that is open is in the list of a client that is yet to close it: a client that was closed has left none open |
| Providers.CreateStep | server/messagehandlers.c:344-354 | a new source is registered and in the client's list, unless the name is taken |
| Providers.WithdrawStep | server/messagehandlers.c:458-477 | a source that its client closes is off the list and closed |
| Providers.ClosingSteps | server/client.c:148-178 | a client is closed once, its names are gone through in turn, and each source found is destroyed |
| Providers.KickFromOutsideBreaks | server/client.c:24-33 | a concrete interleaving in which another thread kicks the client while its own thread closes the source: the pointer taken from the list is to a source that was cleaned up |
| Providers.CreateKeepsInv | server/messagehandlers.c:344-354 | a new source joins one list, under a name that no pointer that may be used has |
| Providers.WithdrawKeepsInv | server/messagehandlers.c:458-477 | taking a source off the list and closing it leaves valid every other pointer that may be used |
| Providers.DestroyKeepsInv | server/client.c:172-176 | a source destroyed when its client is closed was not closed before, and nothing else that may be used is lost |
| Providers.NotClosedStays | server/source.c:212-246 | a source that nobody closes is not cleaned up |
| Registry.SourceTable.New | server/source.c:167-195 | fails exactly when the name is taken, and then changes nothing; otherwise the source is registered, open, with its own reference |
| Registry.SourceTable.GetByName | server/source.c:36-47 | finds exactly the registered source, holds a reference to it and raises its count by one |
| Registry.SourceTable.RemoveFromRegistry | server/source.c:226-233 | the name is freed; the branch for a name that is gone is never taken |
| Registry.SourceTable.Destroy | server/source.c:212-246 | nothing if the source was closed; otherwise it is closed, unregistered and without its own reference |
| BlockAlloc.BlockAllocator.Alloc | lib/blockalloc.c:135-165 | the block handed out is outstanding for nobody else; free stack and outstanding blocks still partition all carved blocks |
| BlockAlloc.BlockAllocator.Free | lib/blockalloc.c:176-185 | the push fits the array and the partition is kept |
| BlockAlloc.BlockAllocator.Grow | lib/blockalloc.c:143-156 | a chunk apart from all memory in use is carved into grow_size new blocks |
| BlockAlloc.CarvedApart | lib/blockalloc.c:149-153 | two different carved blocks share no byte, of one chunk or of two |
| BlockAlloc.GrowPartition | lib/blockalloc.c:143-156 | the blocks of a new chunk are new, all different, and complete the partition |
| ArenaModel.ReserveSafe | lib/mempool.c:172-219 | a reservation lies inside its chunk, at an even offset, behind all earlier ones of that chunk, and moves none of them |
| ArenaModel.Search | lib/mempool.c:191-200 | the search ends at the first chunk but the last with room to spare, and at none only if there is none |
| ArenaModel.ReservationsApart | lib/mempool.c:172-219 | no two reservations of an arena share a byte |
| ArenaModel.ExternalNotReused | lib/mempool.c:193-208 | a chunk larger than a block is never chosen again |
| Arenas.BackedApart | lib/mempool.c:50-75 | the memories of two chunks share no byte, be they blocks or allocations of their own |
| Arenas.Reserve | lib/mempool.c:172-219 | the search over the list and the growing at its end reserve where the specification says, keep the arena in order, take nothing from anybody else, and add only a chunk whose memory and descriptor nobody held |
| Arenas.FindChunk | lib/mempool.c:191-200 | the loop stops at the first chunk with room to spare, never at the last one |
| Arenas.StaysIntact | lib/mempool.c:172-219 | what other arenas of the same allocators reserve leaves an arena in order |
| Arenas.NewArenaIntact | lib/mempool.c:50-64 | a new arena is in order |
| Arenas.Free | lib/mempool.c:84-96 | every block, external allocation and descriptor the arena holds is given back, each once, and nothing else |
| MemPools.MemPool.Alloc | lib/mempool.c:50-64 | among any number of arenas over shared allocators: one more, and all others keep their chunks and reservations |
| MemPools.MemPool.Reserve | lib/mempool.c:172-219 | the arena gets one more reservation, of at least the size asked for, at the address returned; all reservations, its own and those of others, stay where they are |
| MemPools.MemPool.Free | lib/mempool.c:84-96 | the arena is gone and all others are in order, with all they have |
| MemPools.AllReservationsApart | lib/mempool.c:172-219 | no two live reservations of any two arenas share a byte, and each lies inside its chunk |
| MemPools.ReleasedLeavesOthers | lib/mempool.c:84-96 | giving back what one arena holds leaves the others in order |
| MemPools.ExtendedLeavesOthers | lib/mempool.c:172-219 | what one arena reserves leaves the others in order |
| MemPools.LengthenedApart | lib/mempool.c:202-212 | a chunk an arena gets is none that another arena holds, nor are its memory and descriptor |
| Arenas.TailReleasedFirst | lib/mempool.c:84-96 | giving back the rest of the list and then its head gives back the whole |
| OptionText.DocumentParses | lib/optionstring.c:37-137 | parsing inverts printing: for every name and list of options, with white space wherever the grammar allows it, the meaning comes back |
| OptionText.AcceptsDocuments | lib/optionstring.c:37-137 | the parser accepts exactly the printed documents of the grammar |
| OptionErrors.ErrorPosition | lib/optionstring.c:132-136 | the position reported for a malformed text is the end of the longest front part with which some option string begins: a front part can be completed if and only if it ends no later |
| OptionErrors.OptionsCompleted | lib/optionstring.c:77-127 | what the options in front of the error can be completed with |
| OptionErrors.StaysBad | lib/optionstring.c:77-127 | options that go wrong at a character do so whatever follows |
| OptionText.TwoOptionsParse | lib/optionstring.c:37-137 | a concrete text with two options |
| OptionText.LastEntryWins | lib/optionstring.c:125-126 | of several options with one name the last one counts, and nothing else is in the result |
| OptionText.TrimmingNeedsNone | lib/optionstring.c:32-33 | a text gets the meaning documented for it exactly when no value that is not replaced later ends in white space |
| OptionText.SpaceBehindValueStays | lib/optionstring.c:164-175 | a concrete text whose value keeps its trailing space |
| OptionStrings.ParseOptionString | lib/optionstring.c:37-137 | what the dictionary's pointers read as in the end, terminators written, is the meaning of the text; errors are reported at the position of the specification, and the position is not reset when the text is only a name |
| OptionStrings.ReadOption | lib/optionstring.c:78-104 | one option is scanned as the specification says; the terminator written changes neither an earlier token nor unread text |
| OptionStrings.Set | lib/optionstring.c:106-126 | the stored value ends at its terminator, and all values stored before still read the same |
| OptionStrings.Terminate | lib/optionstring.c:97-97 | writing a terminator behind what has been read corrupts neither earlier tokens nor unread text |
| OptionStrings.GetValue | lib/optionstring.c:156-183 | the value runs to the next comma or the end, trailing white space included, and none is an empty one |
| OptionStrings.GetIdentifier | lib/optionstring.c:185-201 | the longest run of identifier characters behind white space |
| OptionStrings.StoredIsCString | lib/optionstring.c:182-182 | a pointer to a terminated token reads as the token |
| FramePropertiesText.FromString | lib/frameproperties.c:46-82 | each field is what its token reads as, cut to its width, or the default; tokens beyond the fourth are ignored |
| FramePropertiesText.FromPrint | lib/frameproperties.c:46-82 | parsing what was printed gives the printed fields cut to their widths, and the defaults for those left out |
| FramePropertiesText.FieldOrder | lib/frameproperties.c:46-82 | width, height, depth and channels stand in this order, and fields left out are 0, 0, 8 and 3 |
| FramePropertiesText.RoundTrip | server/messagehandlers.c:83-86 | all 16-bit sizes and 8-bit depths and channels come back as they were |
| FramePropertiesText.TokensOfJoin | lib/frameproperties.c:52-77 | splitting at commas undoes joining by them |
| FramePropertiesText.Strtok | lib/frameproperties.c:52-77 | the next token, or none exactly when only separators are left |
| FramePropertiesText.AtoiOfDecimal | lib/source.c:176-179 | reading a printed number gives the number |
| FramePropertiesText.AtoiOfSigned | lib/frameproperties.c:57-69 | white space and a sign in front of a number, and whatever follows it that is no digit |
| FramePropertiesText.AtoiOfNoDigit | lib/frameproperties.c:57-69 | without a digit the value is 0 |
| FramePropertiesText.DecimalPlaces | lib/frameproperties.c:57-69 | a digit behind others counts ones, and the others ten times as much |
| FramePropertiesText.Atoi | lib/frameproperties.c:57-69 | white space, a sign and the longest run of digits decide the value |
| Router.FindRequestMapping | server/messagerouting.c:57-87 | on any table, sorted or not, the search ends with the outcome of the specification, a read behind the end of a name included; on a sorted one that is what a linear search finds |
| Router.SortedIsSearched | server/messagerouting.c:57-87 | on a sorted table no character behind a terminator is read, and what is found is what a linear search finds |
| Router.SearchExact | lib/messagerouting.c:41-79 | on a table without two entries of one name, the search agrees with a linear search for every request if and only if the table is sorted |
| Router.UnsortedFails | lib/messagerouting.c:49-79 | from two entries out of order, a request for which the search goes wrong |
| Router.NotMissed | lib/messagerouting.c:54-77 | the search for a request crossed from two entries out of order never narrows past the second of them |
| Router.ClientTableFails | lib/messagerouting.c:12-16 | the client's table is not sorted, so some request is not searched for rightly |
| Router.UnknownIsFound | lib/messagerouting.c:12-16 | a concrete message without a handler that gets to the handler for data |
| Router.ClientTableSearched | lib/messagerouting.c:12-16 | in the client's table Data and SVR.kick are found, and the search for Stream.orphaned reads behind the end of Data |
| Router.WindowNarrows | server/messagerouting.c:63-79 | when both ends of the window match the next character, all of it does |
| Router.OrderedAt | server/messagerouting.c:48-50 | names in strcmp order that agree up to a position are in order there |
| Router.LookupAt | server/messagerouting.c:79-81 | the first entry with the name is what a linear search finds |
| Router.LookupNone | server/messagerouting.c:66-77 | a table without the name has nothing to find |
| ServerStreams.StepKeepsInv | server/stream.c:68-248 | attach, detach, setClient, resize, setChannels, setEncoding, pause and unpause keep: an attached stream has every temporary image its frames pass through, an unpaused one an encoder opened for what comes out, and the images are those of the last resize or setChannels |
| ServerStreams.RunKeepsInv | server/stream.c:68-248 | the same after every sequence of operations, as long as no source changes its properties |
| ServerStreams.ChangeOfSource | server/source.c:274-286 | changing the properties of a source under any attached stream leaves it working if and only if what has to be done to the new frames can be done, and passes through images like those allocated by the last resize or setChannels |
| ServerStreams.ChangeBreaksStream | server/source.c:274-286 | a concrete change of size that breaks an attached stream |
| ServerStreams.OldImagesServe | server/stream.c:68-85 | a concrete stream that survives the change because images of an earlier source are still there |
| ServerStreams.Stream.PreprocessFrame | server/stream.c:289-321 | OpenCV takes the images exactly when a frame whose colours are converted has 1 or 3 channels, and then what comes out is what the encoder was opened for |
| ServerStreams.Stream.ReallocateTemporaryFrames | server/stream.c:157-187 | afterwards exactly the images needed are there |
| ServerStreams.Stream.Resize | server/stream.c:189-200 | refused unless paused and attached, and then nothing changes; otherwise the width and height asked for, modulo 65536, the images to match, and nothing else changes |
| ServerStreams.Stream.SetChannels | server/stream.c:202-216 | refused for other than 1 or 3 channels, and unless paused and attached, and then nothing changes; otherwise the channels asked for, the images to match, and nothing else changes |
| ServerStreams.Stream.SetEncoding | server/stream.c:116-142 | which error wins, and that an error changes nothing; otherwise the encoding of that name; a descriptor without an object name asks a dictionary for NULL |
| ServerStreams.Stream.AttachSource | server/stream.c:68-85 | refused unless paused and the source has properties; otherwise the stream has the source and its properties, and frames pass unchanged, whatever images are left from before |
| ServerStreams.Stream.DetachSource | server/stream.c:87-95 | refused unless paused; otherwise no source and no properties |
| ServerStreams.Stream.Unpause | server/stream.c:238-248 | an encoder is opened with the stream's properties, if there are client, encoding and source |
| Encoders.CopyOut | lib/encoding.c:204-207 | the two copies move exactly the front of the queue, wrapped or not |
| Encoders.CopyIn | lib/encoding.c:255-261 | the one or two copies put the bytes into the free slots behind the write index and touch no other slot |
| Decoders.Decoder.WritePaddedChunk | lib/encoding.c:448-457 | one round completes an image exactly when the chunk fills it |
| Decoders.Decoder.WriteRowPiece | lib/encoding.c:495-510 | one round extends the pixels received by the piece, or completes the frame with it, and leaves the write offset outside the padding |
| Decoders.Decoder.OffsetAfter | lib/encoding.c:499-505 | the write offset after a piece, the padding skipped at the end of a row and the offset wrapped at the end of the image |
| Jpeg.JpegDecoder.StartFrame | lib/encodings/jpeg.c:252-264 | afterwards the buffer holds nothing and has room for the announced frame |
| Jpeg.JpegDecoder.Store | lib/encodings/jpeg.c:267-268 | the chunk goes behind the bytes received of the frame |
| Jpeg.JpegDecoder.CompleteFrame | lib/encodings/jpeg.c:273-285 | the bytes received are handed over as one frame and become one more decoded image |
| Jpeg.JpegDecoder.Round | lib/encodings/jpeg.c:251-288 | one round makes progress and leaves exactly the rest of the specification to do, or faults as it says |
| Messages.TotalDataLength | lib/message.c:37-40 | the sum of the component lengths modulo 2^16 |
| Messages.PackComponents | lib/message.c:46-48 | the components fill the buffer exactly, or the first that does not fit is found |
| Comm.SendKeepsInv | lib/comm.c:133-135 | a request goes out under an id that no open message carries |
| Comm.ServerReplies | server/client.c:183-186 | a reply takes the place of its request among the open messages |
| Comm.ReceiveStores | lib/comm.c:101-102 | an arriving reply has an id inside the arrays and in use, so it is stored |
| Comm.StoreKeepsThreads | lib/comm.c:101-102 | when a reply is stored, the thread that holds its id has its own reply, and all others wait as before |
| EndToEnd.SendKeepsInv | server/stream.c:354-374 | a Data message joins the flight of its own stream and of no other |
| EndToEnd.DeliverKeepsInv | lib/comm.c:78-107 | what the receive thread hands on keeps: decoder calls, messages in flight, encoder contents and frames to come are the pieces of the stream's frames |
| EndToEnd.DataIsRouted | lib/messagerouting.c:97-106 | what the client decodes are exactly the messages that are no replies, that its router, although unsorted, hands to the handler for data, and that pass the handler's own test |
| SourceFrames.PublishKeepsPlaces | server/source.c:343-355 | an image moves from the ready list to exactly one frame |
| SourceFrames.AllocateKeepsPlaces | lib/encoding.c:403-406 | an image allocated to be filled is in no other place |
| SourceFrames.CompleteKeepsPlaces | lib/encoding.c:421-427 | a completed image moves from the head of the free list to the ready list |
| SourceFrames.ReleaseKeepsPlaces | server/source.c:321-326 | an image that goes back to the decoder was on neither of its lists |
| SourceFrames.PublishKeepsCounts | server/source.c:352-355 | the replaced frame loses the reference for being current and the new one starts with it |
| Registry.SourceTable.CloseSource | server/source.c:214-222 | exactly one caller gets past the closed flag, and its source is still registered |
| Registry.SourceTable.DropSelfReference | server/source.c:243-245 | the source's own reference is given up, its count goes down by one, and the source is queued exactly if it was the last |
| Registry.ClosingIsRegistered | server/source.c:226-233 | a source that is being closed is registered until its name is freed |
| Registry.CleanUpKeepsCounts | lib/refcount.c:126-138 | what the collector cleans up is still allocated, and afterwards nothing refers to it |
| Arenas.AllocChunk | lib/mempool.c:50-64 | a block and a descriptor that nothing used before; nothing in use is taken away |
| Arenas.AllocExternal | lib/mempool.c:66-75 | memory of the requested size and a descriptor that nothing used before |
| Arenas.Extend | lib/mempool.c:202-212 | the list gets one more chunk at its end, large enough and apart from all others, of memory and a descriptor that nobody held |
| ArenaModel.TakenIsReserved | lib/mempool.c:193-217 | taking the bytes where the search ends, in a new chunk if need be, is the reservation, at the address returned |
| OptionStrings.ConsumeWhitespace | lib/optionstring.c:150-154 | stops at the first character that is not white space, at the terminator at the latest |
| OptionStrings.ReadOptions | lib/optionstring.c:77-130 | the loop ends; it stores exactly the options of the text, or fails at the position of the specification, and never touches what is in front of it |
| OptionText.EntriesParse | lib/optionstring.c:77-127 | printed options parse to the map in which later ones replace earlier ones |
| OptionText.EntriesExist | lib/optionstring.c:77-127 | whatever the loop accepts is printed options |

## Left out

- Sockets, accept loop, threads, signals, command line, configuration files, logging and event stubs: the network is a byte stream whose transfers may be partial or fail, and recv with MSG_PEEK for two bytes is all or nothing.
- libjpeg and OpenCV: a compressed frame is a byte string, decompression a function on those, and an image its properties and its bytes; depth is 8 bits in the decoder.
- A send that fails: it ends the connection, and EndToEnd has no step for it; StreamWorkers.SendEncoded and Net.SendMessage have it.
- Response slots that are not initialised when the set grows (lib/responseset.c:82): they are empty in the model; each is emptied before its id is handed out.
- Camera, file and V4L sources, and the request wrappers on the client.
- Failure of malloc, the dummy-allocation build, and freeing of a whole block allocator.
- Mutexes and condition variables themselves, liveness and fairness.
- Width of sizes and offsets in buffers of 2 GB and more: indices are unbounded where the code uses int or size_t.
- atoi on numbers that do not fit an int.
- Drop rate and priority of server streams, and the decoder's replacement when a client stream is unpaused again; there is one decoder and one worker a stream at a time.
- Data for a stream the client does not have: the code returns with the list of streams locked (lib/stream.c:599-602); in EndToEnd every stream has its decoder.
- Release of the reference a stream holds to its source when it is detached: the code never does it (server/stream.c:87-95), so in Registry that handle simply stays.
- Waiting in getFrame of a source and the test for a closed source: a worker takes a frame in a step of its own once there is one at another address.
- qsort: sorting the server's table at start-up puts it in strcmp order.
- EndToEnd.StepKeepsInv: the server sends no message for which the client's router reads behind the end of a name; it does send Stream.orphaned, for which it does (server/stream.c:107-112).
- ClientStreams.ClientStream.ProvideData: frames are returned before or after a call, not between its rounds; Decoders.Decoder.WriteAmidReturns shows that this changes nothing in the decoder.
- SourceFrames.Source.PublishAll: the collector does not run during the call, so that no address is handed out twice; runs in which it does are those of SourceFrames.FramesConserved.
- Providers.StepKeepsInv: creating a source and entering it in the client's list is one step, as is taking it off and closing it; only the client's own thread changes its list, and no other client can close the source in between.
- Providers.ClosedClientsLeaveNothing: a request that closes a source has just looked it up, so that it is the one registered under its name.
- MemPools.MemPool.Alloc: all arenas take their blocks from one allocator, as in the source, where only messages have arenas (lib/message.c:112, 138).
- The arena's copying of bytes into what it reserved (write, strdup, sprintf), and the contents of memory in the allocators: they are about addresses.
- The 'D' pack format, which no message uses.
- Dictionary, List and Queue of the seawolf library are maps and sequences; the key of an option is read when it is set.
- OptionStrings.ParseOptionString: the text holds no NUL, being a C string; the %descriptor entry is the buffer itself.
- Messages.Pack: number of components, request id and payload size must fit 16 bits, and the payload has the size announced.
- Router.FindRequestMapping: the table is not empty and its names are ASCII, as in the source; requests may hold any other characters.
- What a dictionary returns for the key NULL: ServerStreams.Stream.SetEncoding ends in an outcome of its own and changes nothing.
- EndToEnd.RawEndToEnd: stream names are shorter than 65530 bytes, so that a Data message fits its length field.
