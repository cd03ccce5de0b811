/** lib/encoding.c: the encoder's growable circular buffer. */
module Encoders {
  import opened Arithmetic
  import opened Bytes

  function Max(a: nat, b: nat): nat {
    if a >= b then a else b
  }

  /** memcpy(dst + dstOff, src + srcOff, n). */
  method Memcpy(dst: array<byte>, dstOff: nat, src: seq<byte>, srcOff: nat, n: nat)
    requires dstOff + n <= dst.Length
    requires srcOff + n <= |src|
    modifies dst
    ensures dst[..] == Overwrite(old(dst[..]), dstOff, src[srcOff..srcOff + n])
  {
    forall i | 0 <= i < n {
      dst[dstOff + i] := src[srcOff + i];
    }
  }

  function Overwrite<T>(s: seq<T>, at: nat, t: seq<T>): (r: seq<T>)
    requires at + |t| <= |s|
    ensures |r| == |s|
  {
    seq(|s|, i requires 0 <= i < |s| => if at <= i < at + |t| then t[i - at] else s[i])
  }

  /** realloc(buffer, size) to a larger size: the old bytes stay in front. */
  method Realloc(buffer: array?<byte>, size: nat) returns (grown: array<byte>)
    requires buffer != null ==> buffer.Length <= size
    ensures fresh(grown) && grown.Length == size
    ensures buffer != null ==> grown[..buffer.Length] == buffer[..]
  {
    grown := new byte[size];
    if buffer != null {
      forall i | 0 <= i < buffer.Length {
        grown[i] := buffer[i];
      }
    }
  }

  /** The slot i places behind slot r of a ring of `size` slots. */
  function Slot(r: nat, i: nat, size: nat): (j: nat)
    requires r < size && i <= size
    ensures j < size
  {
    if r + i < size then r + i else r + i - size
  }

  lemma SlotIsModulo(r: nat, i: nat, size: nat)
    requires r < size && i <= size
    ensures (r + i) % size == Slot(r, i, size)
  {
    DivModUnique(r + i, size, if r + i < size then 0 else 1, Slot(r, i, size));
  }

  /** The unread bytes of a circular buffer, oldest first. */
  function Unread(ring: seq<byte>, r: nat, w: nat): (s: seq<byte>)
    requires r < |ring| && w < |ring|
    ensures |s| == if r <= w then w - r else |ring| - r + w
  {
    seq(if r <= w then w - r else |ring| - r + w,
        i requires 0 <= i < if r <= w then w - r else |ring| - r + w => ring[Slot(r, i, |ring|)])
  }

  /** k bytes from slot r on, in at most two pieces. */
  function Front(ring: seq<byte>, r: nat, k: nat): (s: seq<byte>)
    requires r < |ring| && k <= |ring|
    ensures |s| == k
  {
    var first := Min(k, |ring| - r);
    ring[r..r + first] + ring[..k - first]
  }

  /** Reading k bytes takes them off the front. */
  lemma ReadTakesFront(ring: seq<byte>, r: nat, w: nat, k: nat)
    requires r < |ring| && w < |ring| && k <= |Unread(ring, r, w)|
    ensures Front(ring, r, k) == Unread(ring, r, w)[..k]
    ensures Unread(ring, Slot(r, k, |ring|), w) == Unread(ring, r, w)[k..]
  {
  }

  /** The slots after writing data in at most two pieces from slot w on. */
  function Stored(ring: seq<byte>, w: nat, data: seq<byte>): (ring': seq<byte>)
    requires w < |ring| && |data| < |ring|
    ensures |ring'| == |ring|
  {
    var endSpace := |ring| - w;
    if |data| <= endSpace then Overwrite(ring, w, data)
    else Overwrite(Overwrite(ring, w, data[..endSpace]), 0, data[endSpace..])
  }

  lemma StoredAt(ring: seq<byte>, w: nat, data: seq<byte>, j: nat)
    requires w < |ring| && |data| < |ring| && j < |ring|
    ensures Stored(ring, w, data)[j] == if w <= j < w + |data| then data[j - w]
                                        else if j + |ring| < w + |data| then data[j + |ring| - w]
                                        else ring[j]
  {
  }

  /** Writing data behind w appends it, provided a slot stays free. */
  lemma WriteAppends(ring: seq<byte>, r: nat, w: nat, data: seq<byte>)
    requires r < |ring| && w < |ring| && |Unread(ring, r, w)| + |data| < |ring|
    ensures Unread(Stored(ring, w, data), r, Slot(w, |data|, |ring|)) == Unread(ring, r, w) + data
  {
    var ring', w', want := Stored(ring, w, data), Slot(w, |data|, |ring|), Unread(ring, r, w) + data;
    assert |Unread(ring', r, w')| == |want|;
    forall i | 0 <= i < |want| ensures Unread(ring', r, w')[i] == want[i] {
      StoredAt(ring, w, data, Slot(r, i, |ring|));
    }
  }

  /** An unwrapped queue is unchanged when slots are added at the end. */
  lemma GrowInPlace(ring: seq<byte>, grown: seq<byte>, r: nat, w: nat, unused: bool)
    requires r <= w < |ring| <= |grown|
    requires if unused then r == w else grown[..|ring|] == ring
    ensures Unread(grown, r, w) == Unread(ring, r, w)
  {
    if !unused {
      assert forall i :: 0 <= i < |ring| ==> grown[i] == grown[..|ring|][i];
    }
  }

  lemma OverwriteTwice<T>(s: seq<T>, a: seq<T>, b: seq<T>)
    requires |a| + |b| <= |s|
    ensures Overwrite(Overwrite(s, 0, a), |a|, b) == Overwrite(s, 0, a + b)
  {
  }

  /** The two copies that take k bytes out of a ring. */
  method CopyOut(dst: array<byte>, ring: array<byte>, r: nat, k: nat)
    requires dst != ring && r < ring.Length && k <= ring.Length && k <= dst.Length
    modifies dst
    ensures dst[..] == Overwrite(old(dst[..]), 0, Front(ring[..], r, k))
  {
    var first := Min(k, ring.Length - r);
    ghost var target := dst[..];
    Memcpy(dst, 0, ring[..], r, first);
    Memcpy(dst, first, ring[..], 0, k - first);
    OverwriteTwice(target, ring[..][r..r + first], ring[..][..k - first]);
  }

  /** The one or two copies that put data into a ring from slot w on. */
  method CopyIn(ring: array<byte>, w: nat, data: seq<byte>)
    requires w < ring.Length && |data| < ring.Length
    modifies ring
    ensures ring[..] == Stored(old(ring[..]), w, data)
  {
    var n := |data|;
    var endSpace := ring.Length - w;
    if n <= endSpace {
      assert data[0..n] == data;
      Memcpy(ring, w, data, 0, n);
    } else {
      assert data[0..endSpace] == data[..endSpace];
      assert data[endSpace..endSpace + (n - endSpace)] == data[endSpace..];
      Memcpy(ring, w, data, 0, endSpace);
      Memcpy(ring, 0, data, endSpace, n - endSpace);
    }
  }

  class Encoder {
    var buffer: array?<byte>
    var readIndex: nat
    var writeIndex: nat
    var bufferSize: nat

    ghost predicate Valid()
      reads this
    {
      && readIndex < bufferSize
      && writeIndex < bufferSize
      && (buffer == null ==> bufferSize == 1)
      && (buffer != null ==> buffer.Length == bufferSize)
    }

    /** The slots; before the first allocation, one slot that is never used. */
    ghost function Ring(): (ring: seq<byte>)
      requires Valid()
      reads this, buffer
      ensures |ring| == bufferSize
    {
      if buffer == null then [0] else buffer[..]
    }

    ghost function Contents(): (s: seq<byte>)
      requires Valid()
      reads this, buffer
      ensures |s| < bufferSize
    {
      Unread(Ring(), readIndex, writeIndex)
    }

    constructor ()
      ensures Valid() && Contents() == [] && buffer == null
    {
      buffer := null;
      readIndex, writeIndex, bufferSize := 0, 0, 1;
    }

    function DataReady(): (n: nat)
      requires Valid()
      reads this, buffer
      ensures n == |Contents()|
    {
      if readIndex <= writeIndex then writeIndex - readIndex
      else (bufferSize - readIndex) + writeIndex
    }

    /** Moves the first min(ready, size) unread bytes to the front of dst. */
    method ReadData(dst: array<byte>, size: nat) returns (readSize: nat)
      requires Valid() && size <= dst.Length && dst != buffer
      modifies this`readIndex, dst
      ensures Valid()
      ensures readSize == Min(old(|Contents()|), size)
      ensures dst[..] == Overwrite(old(dst[..]), 0, old(Contents())[..readSize])
      ensures Contents() == old(Contents())[readSize..]
    {
      ghost var ring := Ring();
      readSize := Min(DataReady(), size);
      ReadTakesFront(ring, readIndex, writeIndex, readSize);
      SlotIsModulo(readIndex, readSize, bufferSize);
      if buffer == null {
        assert Overwrite(dst[..], 0, []) == dst[..];
      } else {
        CopyOut(dst, buffer, readIndex, readSize);
      }
      readIndex := (readIndex + readSize) % bufferSize;
      assert Ring() == ring;
    }

    /** Appends data to the unread bytes, growing the buffer when fewer than |data| + 1
        slots are free, so that a full buffer is never mistaken for an empty one. */
    method ProvideData(data: seq<byte>)
      requires Valid()
      modifies this, buffer
      ensures Valid()
      ensures Contents() == old(Contents()) + data
      ensures bufferSize == Max(old(bufferSize), old(|Contents()|) + |data| + 1)
      ensures buffer == old(buffer) || fresh(buffer)
    {
      var n := |data|;
      var usedSpace := DataReady();
      if bufferSize - usedSpace <= n {
        Grow(usedSpace + n + 1);
      }

      Store(data);
    }

    /** The copying half of provideData. */
    method Store(data: seq<byte>)
      requires Valid() && |Contents()| + |data| < bufferSize
      modifies this`writeIndex, buffer
      ensures Valid()
      ensures Contents() == old(Contents()) + data
    {
      ghost var ring := Ring();
      SlotIsModulo(writeIndex, |data|, bufferSize);
      WriteAppends(ring, readIndex, writeIndex, data);
      if buffer != null {
        CopyIn(buffer, writeIndex, data);
      } else {
        assert Stored(ring, 0, []) == ring;
      }
      assert Ring() == Stored(ring, writeIndex, data);
      writeIndex := (writeIndex + |data|) % bufferSize;
    }

    /** The growing half of provideData: un-wraps a wrapped queue to the front of the new
        buffer, and otherwise grows in place. */
    method Grow(size: nat)
      requires Valid() && size > bufferSize
      modifies this
      ensures Valid() && fresh(buffer) && bufferSize == size
      ensures Contents() == old(Contents())
    {
      var usedSpace := DataReady();
      var grown;
      if writeIndex < readIndex {
        ghost var contents := Contents();
        var temp := new byte[usedSpace];
        var _ := ReadData(temp, usedSpace);
        assert temp[..] == contents;
        grown := Realloc(buffer, size);
        Memcpy(grown, 0, temp[..], 0, usedSpace);
        assert Unread(grown[..], 0, usedSpace) == contents;
        readIndex, writeIndex := 0, usedSpace;
      } else {
        grown := Realloc(buffer, size);
        GrowInPlace(Ring(), grown[..], readIndex, writeIndex, buffer == null);
      }
      buffer, bufferSize := grown, size;
    }
  }
}
