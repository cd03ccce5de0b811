/** lib/message.c: messages and their packed form. */
module Messages {
  import opened Bytes
  import opened Encoders
  import opened Packing

  const PREFIX_LENGTH := 8

  datatype Message = Message(requestId: nat, components: seq<cstring>, payloadSize: nat, payload: seq<byte>)

  /** Texts as pack items. */
  function Texts(components: seq<cstring>): (items: seq<Item>)
    ensures |items| == |components|
  {
    seq(|components|, i requires 0 <= i < |components| => Text(components[i]))
  }

  function Body(components: seq<cstring>): seq<byte> {
    EncodeAll(Texts(components))
  }

  function DataLength(components: seq<cstring>): nat {
    if components == [] then 0 else |components[0]| + 1 + DataLength(components[1..])
  }

  function Header(m: Message): (items: seq<Item>)
    ensures |items| == 4
  {
    [Half(DataLength(m.components) % 0x1_0000), Half(m.requestId), Half(|m.components|), Half(m.payloadSize)]
  }

  function PackedBytes(m: Message): seq<byte> {
    EncodeAll(Header(m)) + Body(m.components)
  }

  /** A message as it goes over the wire, payload included. */
  function Wire(m: Message): seq<byte> {
    PackedBytes(m) + m.payload
  }

  /** The fields fit their 16-bit widths and the payload has the announced size. */
  ghost predicate FitsFields(m: Message) {
    && m.requestId < 0x1_0000 && |m.components| < 0x1_0000
    && m.payloadSize == |m.payload| < 0x1_0000
  }

  ghost predicate Sendable(m: Message) {
    FitsFields(m) && DataLength(m.components) < 0x1_0000
  }

  lemma {:induction false} BodyLength(components: seq<cstring>)
    ensures |Body(components)| == DataLength(components)
  {
    if components != [] {
      BodyLength(components[1..]);
      assert Texts(components)[1..] == Texts(components[1..]);
    }
  }

  lemma HeaderLength(m: Message)
    ensures |EncodeAll(Header(m))| == PREFIX_LENGTH
  {
    var h := Header(m);
    assert h[0..] == h && h[4..] == [];
    EncodeAllStep([], h, 0);
    EncodeAllStep([], h, 1);
    EncodeAllStep([], h, 2);
    EncodeAllStep([], h, 3);
  }

  lemma {:induction false} DataLengthAppend(a: seq<cstring>, b: seq<cstring>)
    ensures DataLength(a + b) == DataLength(a) + DataLength(b)
  {
    if a == [] {
      assert a + b == b;
    } else {
      DataLengthAppend(a[1..], b);
      assert (a + b)[0] == a[0] && (a + b)[1..] == a[1..] + b;
    }
  }

  /** Overrun: the 16-bit length wrapped, and a component would be written past the buffer. */
  datatype PackResult = Overrun | Packed(data: seq<byte>)

  lemma DataLengthTake(components: seq<cstring>, i: nat)
    requires i < |components|
    ensures DataLength(components[..i + 1]) == DataLength(components[..i]) + |components[i]| + 1
    ensures DataLength(components[..i + 1]) <= DataLength(components)
  {
    DataLengthAppend(components[..i], [components[i]]);
    assert components[..i + 1] == components[..i] + [components[i]];
    DataLengthAppend(components[..i + 1], components[i + 1..]);
    assert components == components[..i + 1] + components[i + 1..];
  }

  /** The length field, summed in 16 bits. */
  method TotalDataLength(components: seq<cstring>) returns (total: nat)
    ensures total == DataLength(components) % 0x1_0000
  {
    total := 0;
    for i := 0 to |components|
      invariant total == DataLength(components[..i]) % 0x1_0000
    {
      DataLengthTake(components, i);
      total := (total + |components[i]| + 1) % 0x1_0000;
    }
    assert components[..|components|] == components;
  }

  /** Writes the components behind the header; fails at the first that does not fit. */
  method PackComponents(data: array<byte>, components: seq<cstring>) returns (fits: bool)
    requires PREFIX_LENGTH <= data.Length <= PREFIX_LENGTH + DataLength(components)
    modifies data
    ensures fits <==> data.Length == PREFIX_LENGTH + DataLength(components)
    ensures fits ==> data[..] == old(data[..PREFIX_LENGTH]) + Body(components)
  {
    hide Overwrite, EncodeAll, Encode, Texts;
    var offset := PREFIX_LENGTH;
    ghost var written := data[..offset];
    assert components[0..] == components;
    for i := 0 to |components|
      invariant offset == PREFIX_LENGTH + DataLength(components[..i]) <= data.Length
      invariant written + Body(components[i..]) == old(data[..PREFIX_LENGTH]) + Body(components)
      invariant data[..offset] == written
    {
      var c := components[i];
      DataLengthTake(components, i);
      if offset + |c| + 1 > data.Length {
        return false;
      }
      BodyStep(written, components, i);
      OneText(c);
      OverwriteTail(data[..], offset, c + [0]);
      offset := Packing.Pack(data, offset, [Text(c)]);
      written := written + (c + [0]);
    }
    assert components[..|components|] == components;
    EmptyBody();
    return true;
  }

  lemma OverwriteTail(s: seq<byte>, at: nat, t: seq<byte>)
    requires at + |t| <= |s|
    ensures Overwrite(s, at, t)[..at + |t|] == s[..at] + t
  {
  }

  lemma EmptyBody()
    ensures Body([]) == []
  {
  }

  /** SVR_Message_pack. */
  method Pack(m: Message) returns (r: PackResult)
    requires FitsFields(m)
    ensures r.Packed? <==> DataLength(m.components) < 0x1_0000
    ensures r.Packed? ==> r.data == PackedBytes(m)
  {
    hide Overwrite, EncodeAll, Encode, Texts, DataLength, Body;
    var total := TotalDataLength(m.components);
    var data := new byte[total + PREFIX_LENGTH];
    HeaderLength(m);
    var header := [Half(total), Half(m.requestId), Half(|m.components|), Half(m.payloadSize)];
    assert header == Header(m);
    OverwriteTail(data[..], 0, EncodeAll(header));
    var _ := Packing.Pack(data, 0, header);
    assert data[..PREFIX_LENGTH] == EncodeAll(header);
    var fits := PackComponents(data, m.components);
    r := if fits then Packed(data[..]) else Overrun;
  }

  lemma OneText(c: cstring)
    ensures EncodeAll([Text(c)]) == c + [0]
  {
    assert EncodeAll([Text(c)]) == Encode(Text(c)) + EncodeAll([]);
  }

  lemma BodyStep(written: seq<byte>, components: seq<cstring>, i: nat)
    requires i < |components|
    ensures written + Body(components[i..]) == written + (components[i] + [0]) + Body(components[i + 1..])
  {
    assert Texts(components[i..])[0] == Text(components[i]);
    assert Texts(components[i..])[1..] == Texts(components[i + 1..]);
  }

  function Repeat(format: Format, count: nat): (f: seq<Format>)
    ensures |f| == count
  {
    seq(count, _ => format)
  }

  lemma DecodeRepeated(format: Format, count: nat, s: seq<byte>, offset: nat)
    requires 0 < count && offset <= |s|
    ensures var one := Decode(format, s, offset);
            DecodeAll(Repeat(format, count), s, offset) ==
              if one == OutOfBounds then OutOfBounds
              else Prepend(one.items, DecodeAll(Repeat(format, count - 1), s, one.offset))
  {
    assert Repeat(format, count)[1..] == Repeat(format, count - 1);
  }

  lemma DecodeNone(format: Format, s: seq<byte>, offset: nat)
    requires offset <= |s|
    ensures DecodeAll(Repeat(format, 0), s, offset) == Packing.Unpacked([], offset)
  {
  }

  lemma HeaderOf(s: seq<byte>)
    ensures DecodeAll(Repeat(FormatHalf, 4), s, 0) ==
      if |s| < PREFIX_LENGTH then OutOfBounds
      else Packing.Unpacked([Half(Get16(s)), Half(Get16(s[2..])), Half(Get16(s[4..])), Half(Get16(s[6..]))],
                            PREFIX_LENGTH)
  {
    hide DecodeAll, Decode, Repeat, Get16;
    assert s[0..] == s;
    DecodeHalf(4, s, 0);
    DecodeHalf(3, s, 2);
    DecodeHalf(2, s, 4);
    DecodeHalf(1, s, 6);
    if |s| >= PREFIX_LENGTH {
      DecodeNone(FormatHalf, s, 8);
    }
  }

  lemma DecodeHalf(count: nat, s: seq<byte>, offset: nat)
    requires 0 < count
    ensures offset <= |s| < offset + 2 ==> DecodeAll(Repeat(FormatHalf, count), s, offset) == OutOfBounds
    ensures offset + 2 <= |s| ==>
      DecodeAll(Repeat(FormatHalf, count), s, offset)
        == Prepend([Half(Get16(s[offset..]))], DecodeAll(Repeat(FormatHalf, count - 1), s, offset + 2))
  {
    if offset <= |s| {
      DecodeRepeated(FormatHalf, count, s, offset);
    }
  }

  /** ReadPastEnd: the source has no bounds here and would read outside the received bytes. */
  datatype UnpackResult = ReadPastEnd | Read(message: Message)

  /** The message in the packed bytes s. Its payload is not part of them. */
  function UnpackedMessage(s: seq<byte>): UnpackResult {
    if |s| < PREFIX_LENGTH then ReadPastEnd else
    match DecodeAll(Repeat(FormatText, Get16(s[4..])), s, PREFIX_LENGTH)
    case OutOfBounds => ReadPastEnd
    case Unpacked(texts, _) => Read(Message(Get16(s[2..]), TextsIn(texts), Get16(s[6..]), []))
  }

  function TextsIn(items: seq<Item>): (components: seq<cstring>)
    requires forall i :: 0 <= i < |items| ==> items[i].Text?
    ensures |components| == |items|
  {
    seq(|items|, i requires 0 <= i < |items| => items[i].text)
  }

  lemma TextsInAppend(items: seq<Item>, item: Item)
    requires item.Text? && forall i :: 0 <= i < |items| ==> items[i].Text?
    ensures TextsIn(items + [item]) == TextsIn(items) + [item.text]
  {
  }

  /** SVR_PackedMessage_unpack. */
  method Unpack(data: array<byte>) returns (r: UnpackResult)
    ensures r == UnpackedMessage(data[..])
  {
    HeaderOf(data[..]);
    var header := Packing.Unpack(data, 0, Repeat(FormatHalf, 4));
    if header == OutOfBounds {
      return ReadPastEnd;
    }
    var count: nat, offset: nat, components: seq<cstring> := header.items[2].value, header.offset, [];
    ghost var texts, items: seq<Item> := DecodeAll(Repeat(FormatText, count), data[..], offset), [];
    ghost var left := count;
    assert Pending(texts, items, left, data[..], offset) by {
      assert texts.Unpacked? ==> [] + texts.items == texts.items;
    }
    assert TextsIn([]) == [];
    hide DecodeAll, Repeat, TextsIn, Pending, Get16;
    for i := 0 to count
      invariant offset <= data.Length
      invariant |items| == i && forall j :: 0 <= j < i ==> items[j].Text?
      invariant components == TextsIn(items)
      invariant left == count - i && Pending(texts, items, left, data[..], offset)
    {
      NextText(texts, data[..], left, offset, items);
      var text := Packing.Unpack(data, offset, [FormatText]);
      assert text.Unpacked? ==> text.items == [text.items[0]];
      if text == OutOfBounds {
        return ReadPastEnd;
      }
      TextsInAppend(items, text.items[0]);
      components, offset := components + [text.items[0].text], text.offset;
      items, left := items + text.items, left - 1;
    }
    NoTextLeft(texts, data[..], offset, items);
    r := Read(Message(header.items[1].value, components, header.items[3].value, []));
  }

  lemma DecodeOne(format: Format, s: seq<byte>, offset: nat)
    requires offset <= |s|
    ensures DecodeAll([format], s, offset) == Decode(format, s, offset)
  {
    assert [format][1..] == [];
    var one := Decode(format, s, offset);
    assert one.Unpacked? ==> one.items + [] == one.items;
  }

  /** With `items` read already, `left` more strings at `offset` complete the texts. */
  ghost predicate Pending(texts: Unpacked, items: seq<Item>, left: nat, s: seq<byte>, offset: nat) {
    offset <= |s| && texts == Prepend(items, DecodeAll(Repeat(FormatText, left), s, offset))
  }

  lemma NextText(texts: Unpacked, s: seq<byte>, left: nat, offset: nat, items: seq<Item>)
    requires Pending(texts, items, left, s, offset) && 0 < left
    ensures var text := DecodeAll([FormatText], s, offset);
            && (text == OutOfBounds ==> texts == OutOfBounds)
            && (text.Unpacked? ==> |text.items| == 1 && Pending(texts, items + text.items, left - 1, s, text.offset))
  {
    hide Decode, DecodeAll, Repeat;
    DecodeRepeated(FormatText, left, s, offset);
    DecodeOne(FormatText, s, offset);
    var text := DecodeAll([FormatText], s, offset);
    if text.Unpacked? {
      PrependTwice(items, text.items, DecodeAll(Repeat(FormatText, left - 1), s, text.offset));
    }
  }

  lemma PrependTwice(a: seq<Item>, b: seq<Item>, r: Unpacked)
    ensures Prepend(a, Prepend(b, r)) == Prepend(a + b, r)
  {
    if r.Unpacked? {
      assert a + (b + r.items) == a + b + r.items;
    }
  }

  lemma NoTextLeft(texts: Unpacked, s: seq<byte>, offset: nat, items: seq<Item>)
    requires Pending(texts, items, 0, s, offset)
    ensures texts.Unpacked? && texts.items == items
  {
    DecodeNone(FormatText, s, offset);
    assert items + [] == items;
  }

  /** The header fields come back. */
  lemma HeaderUnpacks(m: Message)
    requires Sendable(m)
    ensures var s := PackedBytes(m);
      && |s| >= PREFIX_LENGTH && Get16(s[2..]) == m.requestId && Get16(s[4..]) == |m.components|
      && Get16(s[6..]) == m.payloadSize
  {
    var s, h, body := PackedBytes(m), Header(m), Body(m.components);
    HeaderLength(m);
    assert Formats(h) == Repeat(FormatHalf, 4) && TruncatedAll(h) == h;
    assert [] + EncodeAll(h) + body == s;
    hide DecodeAll, EncodeAll, Body, Get16, TruncatedAll, Formats, Repeat;
    DecodeOfEncodeAll(h, [], body);
    HeaderOf(s);
  }

  lemma TextsAsTheyAre(components: seq<cstring>)
    ensures Formats(Texts(components)) == Repeat(FormatText, |components|)
    ensures TruncatedAll(Texts(components)) == Texts(components) && TextsIn(Texts(components)) == components
  {
    var texts := Texts(components);
    forall i | 0 <= i < |texts| ensures Truncated(texts[i]) == texts[i] && FormatOf(texts[i]) == FormatText {}
  }

  /** The components come back. */
  lemma TextsUnpack(m: Message)
    ensures |PackedBytes(m)| >= PREFIX_LENGTH
    ensures DecodeAll(Repeat(FormatText, |m.components|), PackedBytes(m), PREFIX_LENGTH)
         == Packing.Unpacked(Texts(m.components), |PackedBytes(m)|)
  {
    var texts, h := Texts(m.components), EncodeAll(Header(m));
    HeaderLength(m);
    TextsAsTheyAre(m.components);
    assert h + EncodeAll(texts) + [] == PackedBytes(m);
    hide DecodeAll, EncodeAll, TruncatedAll, Formats, Repeat, Texts;
    DecodeOfEncodeAll(texts, h, []);
  }

  /** Unpacking undoes packing, whatever follows the packed bytes. */
  lemma UnpackOfPack(m: Message)
    requires Sendable(m)
    ensures UnpackedMessage(PackedBytes(m)) == Read(Message(m.requestId, m.components, m.payloadSize, []))
  {
    HeaderUnpacks(m);
    TextsUnpack(m);
    TextsAsTheyAre(m.components);
    hide DecodeAll, PackedBytes, Get16, TextsIn, Texts, Repeat, Sendable;
  }

  function Terminators(s: seq<byte>): nat {
    if s == [] then 0 else (if s[0] == 0 then 1 else 0) + Terminators(s[1..])
  }

  lemma {:induction false} SkipText(s: seq<byte>, offset: nat)
    requires offset <= |s|
    ensures var end := Terminator(s, offset);
            Terminators(s[offset..]) == if end == |s| then 0 else 1 + Terminators(s[end + 1..])
    decreases |s| - offset
  {
    if offset < |s| {
      assert s[offset..][1..] == s[offset + 1..];
      if s[offset] != 0 {
        SkipText(s, offset + 1);
      }
    }
  }

  /** Reading `count` strings stays inside the buffer exactly when it holds as many terminators,
      and what is read is exactly what packing those strings would have written there. */
  lemma {:induction false} TextsExact(s: seq<byte>, count: nat, offset: nat)
    requires offset <= |s|
    ensures var r := DecodeAll(Repeat(FormatText, count), s, offset);
            && (r.Unpacked? <==> count <= Terminators(s[offset..]))
            && (r.Unpacked? ==> r.items == Texts(TextsIn(r.items)) && s[offset..r.offset] == Body(TextsIn(r.items)))
    decreases count
  {
    hide Body, Terminator, DecodeAll, Repeat, Terminators, Prepend, Decode;
    if count == 0 {
      DecodeNone(FormatText, s, offset);
      EmptyBody();
      assert TextsIn([]) == [];
    } else {
      SkipText(s, offset);
      OneMoreText(s, count, offset);
      var end := Terminator(s, offset);
      if end < |s| {
        TextsExact(s, count - 1, end + 1);
        var rest := DecodeAll(Repeat(FormatText, count - 1), s, end + 1);
        if rest.Unpacked? {
          BodyOfCons(s[offset..end], TextsIn(rest.items));
          SliceAround(s, offset, end, rest.offset);
        }
      }
    }
  }

  lemma SliceAround<T>(s: seq<T>, i: nat, j: nat, k: nat)
    requires i <= j < k <= |s|
    ensures s[i..k] == s[i..j] + [s[j]] + s[j + 1..k]
  {
  }

  lemma OneMoreText(s: seq<byte>, count: nat, offset: nat)
    requires 0 < count && offset <= |s|
    ensures var end, r := Terminator(s, offset), DecodeAll(Repeat(FormatText, count), s, offset);
            if end == |s| then r == OutOfBounds
            else var rest := DecodeAll(Repeat(FormatText, count - 1), s, end + 1);
              if rest == OutOfBounds then r == OutOfBounds
              else r == Packing.Unpacked([Text(s[offset..end])] + rest.items, rest.offset)
                   && TextsIn(r.items) == [s[offset..end]] + TextsIn(rest.items)
  {
    DecodeRepeated(FormatText, count, s, offset);
    hide Terminator, DecodeAll, Repeat;
  }

  lemma BodyOfCons(c: cstring, components: seq<cstring>)
    ensures Body([c] + components) == c + [0] + Body(components)
    ensures Texts([c] + components) == [Text(c)] + Texts(components)
  {
    hide Body;
    var all := [c] + components;
    BodyStep([], all, 0);
    assert all[0..] == all && all[1..] == components;
    assert [] + Body(all) == Body(all);
    assert [] + (c + [0]) + Body(components) == c + [0] + Body(components);
  }

  /** What the bytes of a message are, one by one: data length, request id, number of components and
      payload size in two bytes each, the higher one first, and then the components, each with
      its terminator. */
  lemma PackedLayout(m: Message)
    ensures var s := PackedBytes(m);
      && |s| == PREFIX_LENGTH + DataLength(m.components)
      && (s[0] as int) * 0x100 + s[1] as int == DataLength(m.components) % 0x1_0000
      && (s[2] as int) * 0x100 + s[3] as int == m.requestId % 0x1_0000
      && (s[4] as int) * 0x100 + s[5] as int == |m.components| % 0x1_0000
      && (s[6] as int) * 0x100 + s[7] as int == m.payloadSize % 0x1_0000
      && forall k :: 0 <= k < |m.components| ==>
           ItemAt(s, PREFIX_LENGTH + DataLength(m.components[..k]), Text(m.components[k]))
  {
    hide EncodeAll, Texts;
    HeaderLayout(m);
    BodyLength(m.components);
    var header, body := EncodeAll(Header(m)), Body(m.components);
    forall k | 0 <= k < |m.components|
      ensures ItemAt(header + body, PREFIX_LENGTH + DataLength(m.components[..k]), Text(m.components[k]))
    {
      ComponentLayout(m.components, k);
      ItemMoves(header, body, [], DataLength(m.components[..k]), Text(m.components[k]));
      assert header + body + [] == header + body;
    }
  }

  /** The payload follows the packed message. */
  lemma WireLayout(m: Message)
    ensures PackedBytes(m) <= Wire(m) && Wire(m)[|PackedBytes(m)|..] == m.payload
  {
    hide PackedBytes;
  }

  lemma HeaderLayout(m: Message)
    ensures var s := EncodeAll(Header(m));
      && |s| == PREFIX_LENGTH
      && (s[0] as int) * 0x100 + s[1] as int == DataLength(m.components) % 0x1_0000
      && (s[2] as int) * 0x100 + s[3] as int == m.requestId % 0x1_0000
      && (s[4] as int) * 0x100 + s[5] as int == |m.components| % 0x1_0000
      && (s[6] as int) * 0x100 + s[7] as int == m.payloadSize % 0x1_0000
  {
    hide EncodeAll, DataLength;
    var h := Header(m);
    HeaderLength(m);
    forall k | 0 <= k < 4 ensures ItemAt(EncodeAll(h), 2 * k, h[k]) {
      ItemsInOrder(h, k);
      HalfSizes(h[..k]);
    }
    assert ItemAt(EncodeAll(h), 0, h[0]) && ItemAt(EncodeAll(h), 2, h[1]);
    assert ItemAt(EncodeAll(h), 4, h[2]) && ItemAt(EncodeAll(h), 6, h[3]);
  }

  lemma {:induction false} HalfSizes(items: seq<Item>)
    requires forall item :: item in items ==> item.Half?
    ensures TotalSize(items) == 2 * |items|
  {
    if items != [] {
      HalfSizes(items[1..]);
    }
  }

  lemma ComponentLayout(components: seq<cstring>, k: nat)
    requires k < |components|
    ensures ItemAt(Body(components), DataLength(components[..k]), Text(components[k]))
  {
    hide EncodeAll, ItemAt;
    ItemsInOrder(Texts(components), k);
    TextSizes(components[..k]);
    assert Texts(components)[..k] == Texts(components[..k]);
  }

  lemma {:induction false} TextSizes(components: seq<cstring>)
    ensures TotalSize(Texts(components)) == DataLength(components)
  {
    if components != [] {
      TextSizes(components[1..]);
      assert Texts(components)[1..] == Texts(components[1..]);
    }
  }

  /** Unpacking received bytes stays inside them exactly when they hold a header and at least
      as many terminators as the header announces components; the length field plays no part. */
  lemma UnpackExact(s: seq<byte>)
    ensures UnpackedMessage(s).Read? <==>
      |s| >= PREFIX_LENGTH && Get16(s[4..]) <= Terminators(s[PREFIX_LENGTH..])
    ensures UnpackedMessage(s).Read? ==>
      var m := UnpackedMessage(s).message;
      |m.components| == Get16(s[4..]) && Body(m.components) <= s[PREFIX_LENGTH..]
  {
    if |s| >= PREFIX_LENGTH {
      var count := Get16(s[4..]);
      TextsExact(s, count, PREFIX_LENGTH);
      var texts := DecodeAll(Repeat(FormatText, count), s, PREFIX_LENGTH);
      if texts.Unpacked? {
        assert s[PREFIX_LENGTH..][..texts.offset - PREFIX_LENGTH] == s[PREFIX_LENGTH..texts.offset];
      }
    }
  }
}
