/** lib/pack.c: big-endian integers and NUL-terminated strings in a byte buffer. */
module Packing {
  import opened Bytes
  import opened Encoders

  /** The text of a C string, without its terminator. */
  type cstring = s: seq<byte> | 0 !in s witness []

  /** One format character of "bhis", with the argument packed for it. */
  datatype Item = Byte(value: int) | Half(value: int) | Word(value: int) | Text(text: cstring)

  datatype Format = FormatByte | FormatHalf | FormatWord | FormatText

  function Put16(n: int): (s: seq<byte>)
    ensures |s| == 2
  {
    [n / 0x100 % 0x100, n % 0x100]
  }

  function Get16(s: seq<byte>): (n: nat)
    requires |s| >= 2
    ensures n < 0x1_0000
  {
    (s[0] as int) * 0x100 + s[1] as int
  }

  function Put32(n: int): (s: seq<byte>)
    ensures |s| == 4
  {
    Put16(n / 0x1_0000) + Put16(n)
  }

  function Get32(s: seq<byte>): (n: nat)
    requires |s| >= 4
    ensures n < 0x1_0000_0000
  {
    Get16(s) * 0x1_0000 + Get16(s[2..])
  }

  lemma Get16OfPut16(n: int, tail: seq<byte>)
    ensures Get16(Put16(n) + tail) == n % 0x1_0000
  {
  }

  lemma Get32OfPut32(n: int, tail: seq<byte>)
    ensures Get32(Put32(n) + tail) == n % 0x1_0000_0000
  {
    Get16OfPut16(n / 0x1_0000, Put16(n) + tail);
    Get16OfPut16(n, tail);
    assert Put32(n) + tail == Put16(n / 0x1_0000) + (Put16(n) + tail);
    assert (Put32(n) + tail)[2..] == Put16(n) + tail;
  }

  function Encode(item: Item): seq<byte> {
    match item
    case Byte(v) => [v % 0x100]
    case Half(v) => Put16(v)
    case Word(v) => Put32(v)
    case Text(t) => t + [0]
  }

  function EncodeAll(items: seq<Item>): seq<byte> {
    if items == [] then [] else Encode(items[0]) + EncodeAll(items[1..])
  }

  /** How many bytes an item takes. */
  function SizeOf(item: Item): nat {
    match item
    case Byte(_) => 1
    case Half(_) => 2
    case Word(_) => 4
    case Text(t) => |t| + 1
  }

  function TotalSize(items: seq<Item>): nat {
    if items == [] then 0 else SizeOf(items[0]) + TotalSize(items[1..])
  }

  /** The bytes at an offset are an item: an integer with its most significant byte first, or a
      text and its terminator. */
  ghost predicate ItemAt(s: seq<byte>, at: nat, item: Item) {
    at + SizeOf(item) <= |s| &&
    match item
    case Byte(v) => s[at] == v % 0x100
    case Half(v) => (s[at] as int) * 0x100 + s[at + 1] as int == v % 0x1_0000
    case Word(v) =>
      (s[at] as int) * 0x100_0000 + (s[at + 1] as int) * 0x1_0000 + (s[at + 2] as int) * 0x100 + s[at + 3] as int
        == v % 0x1_0000_0000
    case Text(t) => s[at..at + |t|] == t && s[at + |t|] == 0
  }

  lemma HalfOrder(n: int)
    ensures (Put16(n)[0] as int) * 0x100 + Put16(n)[1] as int == n % 0x1_0000
  {
  }

  lemma WordOrder(n: int)
    ensures var s := Put32(n);
      (s[0] as int) * 0x100_0000 + (s[1] as int) * 0x1_0000 + (s[2] as int) * 0x100 + s[3] as int == n % 0x1_0000_0000
  {
    HalfOrder(n / 0x1_0000);
    HalfOrder(n);
    hide Put16;
  }

  lemma EncodesItem(item: Item)
    ensures |Encode(item)| == SizeOf(item) && ItemAt(Encode(item), 0, item)
  {
    match item
    case Half(v) => HalfOrder(v);
    case Word(v) => WordOrder(v);
    case _ =>
  }

  lemma ItemMoves(before: seq<byte>, bytes: seq<byte>, after: seq<byte>, at: nat, item: Item)
    requires ItemAt(bytes, at, item)
    ensures ItemAt(before + bytes + after, |before| + at, item)
  {
    var s, k := before + bytes + after, |before|;
    assert forall i :: 0 <= i < |bytes| ==> s[k + i] == bytes[i];
    if item.Text? {
      assert s[k + at..k + at + |item.text|] == bytes[at..at + |item.text|];
    }
  }

  /** The items lie one behind the other, in order. */
  lemma {:induction false} ItemsInOrder(items: seq<Item>, k: nat)
    requires k < |items|
    ensures |EncodeAll(items)| == TotalSize(items) && ItemAt(EncodeAll(items), TotalSize(items[..k]), items[k])
    decreases |items|
  {
    hide ItemAt, Encode, SizeOf;
    var first, rest := Encode(items[0]), EncodeAll(items[1..]);
    EncodesItem(items[0]);
    EncodedSize(items[1..]);
    if k == 0 {
      ItemMoves([], first, rest, 0, items[0]);
      assert [] + first + rest == first + rest;
    } else {
      var j: nat := k - 1;
      ItemsInOrder(items[1..], j);
      ItemMoves(first, rest, [], TotalSize(items[1..][..j]), items[k]);
      assert first + rest + [] == first + rest;
      assert items[..k][0] == items[0] && items[..k][1..] == items[1..][..j];
    }
  }

  lemma {:induction false} EncodedSize(items: seq<Item>)
    ensures |EncodeAll(items)| == TotalSize(items)
  {
    if items != [] {
      EncodesItem(items[0]);
      EncodedSize(items[1..]);
    }
  }

  lemma EncodeAllStep(written: seq<byte>, items: seq<Item>, i: nat)
    requires i < |items|
    ensures written + EncodeAll(items[i..]) == written + Encode(items[i]) + EncodeAll(items[i + 1..])
  {
    assert items[i..][0] == items[i] && items[i..][1..] == items[i + 1..];
  }

  /** With `written` out already, the items from i on complete the encoding. */
  ghost predicate Packs(all: seq<byte>, written: seq<byte>, items: seq<Item>, i: nat) {
    i <= |items| && all == written + EncodeAll(items[i..])
  }

  lemma PackedNext(all: seq<byte>, written: seq<byte>, items: seq<Item>, i: nat)
    requires Packs(all, written, items, i) && i < |items|
    ensures |written| + |Encode(items[i])| <= |all| && Packs(all, written + Encode(items[i]), items, i + 1)
  {
    EncodeAllStep(written, items, i);
  }

  lemma PackedAll(all: seq<byte>, written: seq<byte>, items: seq<Item>)
    requires Packs(all, written, items, |items|)
    ensures all == written
  {
  }

  method PutBytes(buffer: array<byte>, offset: nat, bytes: seq<byte>)
    requires offset + |bytes| <= buffer.Length
    modifies buffer
    ensures buffer[..] == Overwrite(old(buffer[..]), offset, bytes)
  {
    assert bytes[0..|bytes|] == bytes;
    Memcpy(buffer, offset, bytes, 0, |bytes|);
  }

  lemma OverwriteNext<T>(s: seq<T>, at: nat, next: nat, a: seq<T>, b: seq<T>)
    requires next == at + |a| && next + |b| <= |s|
    ensures Overwrite(Overwrite(s, at, a), next, b) == Overwrite(s, at, a + b)
  {
  }

  /** Copies a string and its terminator, one character at a time. */
  method PutText(buffer: array<byte>, offset: nat, text: cstring) returns (end: nat)
    requires offset + |text| + 1 <= buffer.Length
    modifies buffer
    ensures end == offset + |text| + 1
    ensures buffer[..] == Overwrite(old(buffer[..]), offset, text + [0])
  {
    ghost var was := buffer[..];
    var i := 0;
    while i < |text|
      invariant 0 <= i <= |text|
      invariant buffer[..] == Overwrite(was, offset, text[..i])
    {
      buffer[offset + i] := text[i];
      i := i + 1;
    }
    buffer[offset + i] := 0;
    end := offset + i + 1;
  }

  method PackOne(buffer: array<byte>, offset: nat, item: Item) returns (end: nat)
    requires offset + |Encode(item)| <= buffer.Length
    modifies buffer
    ensures end == offset + |Encode(item)|
    ensures buffer[..] == Overwrite(old(buffer[..]), offset, Encode(item))
  {
    match item {
      case Text(t) =>
        end := PutText(buffer, offset, t);
      case _ =>
        PutBytes(buffer, offset, Encode(item));
        end := offset + |Encode(item)|;
    }
  }

  /** SVR_pack: writes the items one behind the other and nothing else. */
  method Pack(buffer: array<byte>, packOffset: nat, items: seq<Item>) returns (offset: nat)
    requires packOffset + |EncodeAll(items)| <= buffer.Length
    modifies buffer
    ensures offset == packOffset + |EncodeAll(items)| == packOffset + TotalSize(items)
    ensures buffer[..] == Overwrite(old(buffer[..]), packOffset, EncodeAll(items))
    ensures forall k :: 0 <= k < |items| ==> ItemAt(buffer[..], packOffset + TotalSize(items[..k]), items[k])
  {
    hide ItemAt, TotalSize;
    offset := packOffset;
    ghost var was, written: seq<byte>, all := buffer[..], [], EncodeAll(items);
    assert Overwrite(was, packOffset, []) == was;
    assert Packs(all, written, items, 0) by { assert items[0..] == items; }
    hide Overwrite, Encode, EncodeAll, Packs;
    var i := 0;
    while i < |items|
      invariant 0 <= i <= |items| && |written| <= |all| && Packs(all, written, items, i)
      invariant offset == packOffset + |written|
      invariant buffer[..] == Overwrite(was, packOffset, written)
    {
      PackedNext(all, written, items, i);
      OverwriteNext(was, packOffset, offset, written, Encode(items[i]));
      offset := PackOne(buffer, offset, items[i]);
      written := written + Encode(items[i]);
      i := i + 1;
    }
    PackedAll(all, written, items);
    EncodedSize(items);
    ItemsWritten(was, packOffset, items);
  }

  lemma OverwriteParts(was: seq<byte>, at: nat, bytes: seq<byte>)
    requires at + |bytes| <= |was|
    ensures Overwrite(was, at, bytes) == was[..at] + bytes + was[at + |bytes|..]
  {
  }

  lemma ItemsWritten(was: seq<byte>, at: nat, items: seq<Item>)
    requires at + |EncodeAll(items)| <= |was|
    ensures forall k :: 0 <= k < |items| ==>
      ItemAt(Overwrite(was, at, EncodeAll(items)), at + TotalSize(items[..k]), items[k])
  {
    hide ItemAt, TotalSize, EncodeAll, Overwrite;
    var all := EncodeAll(items);
    var s := Overwrite(was, at, all);
    OverwriteParts(was, at, all);
    forall k | 0 <= k < |items| ensures ItemAt(s, at + TotalSize(items[..k]), items[k]) {
      ItemsInOrder(items, k);
      ItemMoves(was[..at], all, was[at + |all|..], TotalSize(items[..k]), items[k]);
    }
  }

  datatype Unpacked = OutOfBounds | Unpacked(items: seq<Item>, offset: nat)

  /** Where the terminator of the string at `offset` is, or the end of the bytes. */
  function Terminator(s: seq<byte>, offset: nat): (end: nat)
    requires offset <= |s|
    ensures offset <= end <= |s|
    ensures 0 !in s[offset..end]
    ensures end < |s| ==> s[end] == 0
    decreases |s| - offset
  {
    if offset == |s| || s[offset] == 0 then offset else Terminator(s, offset + 1)
  }

  /** What reading one value at `offset` gives; the source has no bounds, so a value that is not
      wholly inside the buffer is an out-of-bounds read. */
  function Decode(format: Format, s: seq<byte>, offset: nat): Unpacked
    requires offset <= |s|
  {
    match format
    case FormatByte =>
      if offset + 1 > |s| then OutOfBounds else Unpacked([Byte(s[offset])], offset + 1)
    case FormatHalf =>
      if offset + 2 > |s| then OutOfBounds else Unpacked([Half(Get16(s[offset..]))], offset + 2)
    case FormatWord =>
      if offset + 4 > |s| then OutOfBounds else Unpacked([Word(Get32(s[offset..]))], offset + 4)
    case FormatText =>
      var end := Terminator(s, offset);
      if end == |s| then OutOfBounds else Unpacked([Text(s[offset..end])], end + 1)
  }

  function DecodeAll(formats: seq<Format>, s: seq<byte>, offset: nat): (r: Unpacked)
    requires offset <= |s|
    ensures r.Unpacked? ==> offset <= r.offset <= |s| && |r.items| == |formats|
    ensures r.Unpacked? ==> forall i :: 0 <= i < |formats| ==> FormatOf(r.items[i]) == formats[i]
  {
    if formats == [] then Unpacked([], offset)
    else
      match Decode(formats[0], s, offset)
      case OutOfBounds => OutOfBounds
      case Unpacked(first, next) => Prepend(first, DecodeAll(formats[1..], s, next))
  }

  function Prepend(items: seq<Item>, r: Unpacked): Unpacked {
    match r
    case OutOfBounds => OutOfBounds
    case Unpacked(rest, end) => Unpacked(items + rest, end)
  }

  function FormatOf(item: Item): Format {
    match item
    case Byte(_) => FormatByte
    case Half(_) => FormatHalf
    case Word(_) => FormatWord
    case Text(_) => FormatText
  }

  function Formats(items: seq<Item>): (f: seq<Format>)
    ensures |f| == |items|
  {
    seq(|items|, i requires 0 <= i < |items| => FormatOf(items[i]))
  }

  /** The value that comes back: integers are cut to the width of their field. */
  function Truncated(item: Item): Item {
    match item
    case Byte(v) => Byte(v % 0x100)
    case Half(v) => Half(v % 0x1_0000)
    case Word(v) => Word(v % 0x1_0000_0000)
    case Text(t) => item
  }

  function TruncatedAll(items: seq<Item>): seq<Item> {
    seq(|items|, i requires 0 <= i < |items| => Truncated(items[i]))
  }

  lemma {:induction false} TerminatorAt(s: seq<byte>, offset: nat, end: nat)
    requires offset <= end < |s| && s[end] == 0 && 0 !in s[offset..end]
    ensures Terminator(s, offset) == end
    decreases end - offset
  {
    if offset < end {
      assert s[offset] in s[offset..end];
      assert s[offset + 1..end] <= s[offset + 1..end];
      TerminatorAt(s, offset + 1, end);
    }
  }

  lemma DecodeOfEncode(item: Item, before: seq<byte>, tail: seq<byte>)
    ensures Decode(FormatOf(item), before + Encode(item) + tail, |before|)
         == Unpacked([Truncated(item)], |before| + |Encode(item)|)
  {
    var s := before + Encode(item) + tail;
    assert s[|before|..] == Encode(item) + tail;
    match item {
      case Byte(v) =>
      case Half(v) => Get16OfPut16(v, tail);
      case Word(v) => Get32OfPut32(v, tail);
      case Text(t) =>
        assert s[|before|..|before| + |t|] == t;
        TerminatorAt(s, |before|, |before| + |t|);
    }
  }

  /** Unpacking undoes packing, wherever in a buffer the items lie and whatever follows. */
  lemma {:induction false} DecodeOfEncodeAll(items: seq<Item>, before: seq<byte>, tail: seq<byte>)
    ensures DecodeAll(Formats(items), before + EncodeAll(items) + tail, |before|)
         == Unpacked(TruncatedAll(items), |before| + |EncodeAll(items)|)
  {
    hide Encode, EncodeAll, Decode, DecodeAll, Truncated, FormatOf, Formats, TruncatedAll;
    if items == [] {
      DecodeOfNothing(before, tail);
    } else {
      var first, rest := Encode(items[0]), EncodeAll(items[1..]);
      var s := Regrouped(before, first, rest, tail);
      EncodeCons(items);
      DecodeOfEncode(items[0], before, rest + tail);
      DecodeOfEncodeAll(items[1..], before + first, tail);
      DecodeCons(items, s, |before|, |before| + |first|, |before + first| + |rest|);
    }
  }

  lemma DecodeOfNothing(before: seq<byte>, tail: seq<byte>)
    ensures EncodeAll([]) == []
    ensures DecodeAll(Formats([]), before + EncodeAll([]) + tail, |before|) == Unpacked(TruncatedAll([]), |before|)
  {
    assert Formats([]) == [] && TruncatedAll([]) == [];
  }

  lemma EncodeCons(items: seq<Item>)
    requires items != []
    ensures EncodeAll(items) == Encode(items[0]) + EncodeAll(items[1..])
  {
  }

  lemma DecodeCons(items: seq<Item>, s: seq<byte>, at: nat, mid: nat, end: nat)
    requires items != [] && at <= |s| && mid <= |s|
    requires Decode(FormatOf(items[0]), s, at) == Unpacked([Truncated(items[0])], mid)
    requires DecodeAll(Formats(items[1..]), s, mid) == Unpacked(TruncatedAll(items[1..]), end)
    ensures DecodeAll(Formats(items), s, at) == Unpacked(TruncatedAll(items), end)
  {
    FirstFormat(items);
    hide Decode, Truncated, FormatOf;
  }

  lemma Regrouped(before: seq<byte>, first: seq<byte>, rest: seq<byte>, tail: seq<byte>) returns (s: seq<byte>)
    ensures s == before + (first + rest) + tail == before + first + (rest + tail) == (before + first) + rest + tail
  {
    s := before + (first + rest) + tail;
  }

  lemma FirstFormat(items: seq<Item>)
    requires items != []
    ensures Formats(items)[0] == FormatOf(items[0]) && Formats(items)[1..] == Formats(items[1..])
    ensures TruncatedAll(items) == [Truncated(items[0])] + TruncatedAll(items[1..])
  {
  }

  /** Scans for the terminator, or the end of the buffer. */
  method FindTerminator(buffer: array<byte>, offset: nat) returns (end: nat)
    requires offset <= buffer.Length
    ensures end == Terminator(buffer[..], offset)
  {
    end := offset;
    while end < buffer.Length && buffer[end] != 0
      invariant offset <= end <= buffer.Length
      invariant Terminator(buffer[..], offset) == Terminator(buffer[..], end)
    {
      end := end + 1;
    }
  }

  /** With `items` read already, reading the formats from i on at `offset` yields the whole. */
  ghost predicate Remains(whole: Unpacked, items: seq<Item>, formats: seq<Format>, i: nat, s: seq<byte>, offset: nat) {
    i <= |formats| && offset <= |s| && whole == Prepend(items, DecodeAll(formats[i..], s, offset))
  }

  lemma OneMore(whole: Unpacked, items: seq<Item>, formats: seq<Format>, i: nat, s: seq<byte>, offset: nat,
                one: Unpacked)
    requires Remains(whole, items, formats, i, s, offset) && i < |formats| && one == Decode(formats[i], s, offset)
    ensures one == OutOfBounds ==> whole == OutOfBounds
    ensures one.Unpacked? ==> one.offset <= |s| && Remains(whole, items + one.items, formats, i + 1, s, one.offset)
  {
    assert formats[i..][1..] == formats[i + 1..];
    if one.Unpacked? {
      assert one.offset <= |s|;
      hide Decode;
      var rest := DecodeAll(formats[i + 1..], s, one.offset);
      assert rest.Unpacked? ==> items + (one.items + rest.items) == (items + one.items) + rest.items;
    }
  }

  lemma NoMore(whole: Unpacked, items: seq<Item>, formats: seq<Format>, s: seq<byte>, offset: nat)
    requires Remains(whole, items, formats, |formats|, s, offset)
    ensures whole == Unpacked(items, offset)
  {
    assert items + [] == items;
  }

  /** SVR_unpack. */
  method Unpack(buffer: array<byte>, packOffset: nat, formats: seq<Format>) returns (r: Unpacked)
    requires packOffset <= buffer.Length
    ensures r == DecodeAll(formats, buffer[..], packOffset)
  {
    ghost var whole := DecodeAll(formats, buffer[..], packOffset);
    var offset: nat, items: seq<Item>, i := packOffset, [], 0;
    assert Remains(whole, items, formats, i, buffer[..], offset) by {
      assert formats[0..] == formats;
      assert whole.Unpacked? ==> [] + whole.items == whole.items;
    }
    hide Decode, DecodeAll, Remains;
    while i < |formats|
      invariant 0 <= i <= |formats| && offset <= buffer.Length
      invariant Remains(whole, items, formats, i, buffer[..], offset)
    {
      var one := UnpackOne(buffer, offset, formats[i]);
      OneMore(whole, items, formats, i, buffer[..], offset, one);
      if one == OutOfBounds {
        return OutOfBounds;
      }
      items, offset := items + one.items, one.offset;
      i := i + 1;
    }
    NoMore(whole, items, formats, buffer[..], offset);
    r := Unpacked(items, offset);
  }

  method UnpackOne(buffer: array<byte>, offset: nat, format: Format) returns (r: Unpacked)
    requires offset <= buffer.Length
    ensures r == Decode(format, buffer[..], offset)
  {
    match format {
      case FormatByte =>
        if offset + 1 > buffer.Length { return OutOfBounds; }
        r := Unpacked([Byte(buffer[offset])], offset + 1);
      case FormatHalf =>
        if offset + 2 > buffer.Length { return OutOfBounds; }
        r := Unpacked([Half(Get16(buffer[offset..]))], offset + 2);
      case FormatWord =>
        if offset + 4 > buffer.Length { return OutOfBounds; }
        r := Unpacked([Word(Get32(buffer[offset..]))], offset + 4);
      case FormatText =>
        var end := FindTerminator(buffer, offset);
        if end == buffer.Length { return OutOfBounds; }
        r := Unpacked([Text(buffer[offset..end])], end + 1);
    }
  }
}
