/** Row geometry of an 8-bit image: `height` rows of `widthStep` bytes, the first `rowBytes`
    (width * channels) of each being pixels and the rest padding. `Pos` sends the i-th pixel byte
    of a frame to its place in the image. */
module Geometries {
  import opened Arithmetic
  import opened Bytes

  datatype Geometry = Geometry(height: nat, rowBytes: nat, widthStep: nat, imageSize: nat, frameBytes: nat) {
    ghost predicate Valid() {
      height > 0 && 0 < rowBytes <= widthStep && 0 < frameBytes <= imageSize && Sized()
    }

    ghost predicate Sized() {
      imageSize == height * widthStep && frameBytes == height * rowBytes
    }

    function Padding(): nat
      requires Valid()
    {
      widthStep - rowBytes
    }
  }

  /** Byte i of row q, of rows of d bytes. */
  function InRow(q: nat, d: nat, i: nat): nat {
    q * d + i
  }

  function Pos(g: Geometry, i: nat): nat
    requires g.Valid()
  {
    InRow(i / g.rowBytes, g.widthStep, i % g.rowBytes)
  }

  /** How many pixel bytes lie in front of image offset w. */
  function PixelsBefore(g: Geometry, w: nat): nat
    requires g.Valid()
  {
    InRow(w / g.widthStep, g.rowBytes, w % g.widthStep)
  }

  /** Inside a row the places are consecutive. */
  lemma PosWithinRow(g: Geometry, i: nat, j: nat)
    requires g.Valid() && i % g.rowBytes + j < g.rowBytes
    ensures Pos(g, i + j) == Pos(g, i) + j
  {
    DivModUnique(i + j, g.rowBytes, i / g.rowBytes, i % g.rowBytes + j);
  }

  /** Places grow with the index, so no two pixel bytes share one. */
  lemma PosIncreases(g: Geometry, i: nat, j: nat)
    requires g.Valid() && i < j
    ensures Pos(g, i) < Pos(g, j)
  {
    var row := g.rowBytes;
    var qi, qj := i / row, j / row;
    assert i == qi * row + i % row && j == qj * row + j % row;
    if qj < qi {
      MulAtLeast(qj, qi, row);
    } else if qi < qj {
      MulAtLeast(qi, qj, g.widthStep);
    }
  }

  /** Every pixel byte of a frame lies inside the image, and the place one past the last is
      exactly the image size. */
  lemma PosInImage(g: Geometry, i: nat)
    requires g.Valid()
    ensures i < g.frameBytes ==> Pos(g, i) < g.imageSize
    ensures Pos(g, g.frameBytes) == g.imageSize
  {
    DivModUnique(g.frameBytes, g.rowBytes, g.height, 0);
    if i < g.frameBytes {
      PosIncreases(g, i, g.frameBytes);
    }
  }

  /** An offset inside the image lies in one of its rows. */
  lemma RowOfOffset(g: Geometry, w: nat)
    requires g.Valid() && w < g.imageSize
    ensures var q := w / g.widthStep;
            && q < g.height
            && w == q * g.widthStep + w % g.widthStep
            && q * g.widthStep + g.widthStep <= g.imageSize
            && q * g.rowBytes + g.rowBytes <= g.frameBytes
            && (q + 1 == g.height ==> q * g.widthStep + g.widthStep == g.imageSize
                                      && q * g.rowBytes + g.rowBytes == g.frameBytes)
            && (q + 1 < g.height ==> q * g.widthStep + g.widthStep < g.imageSize
                                     && q * g.rowBytes + g.rowBytes < g.frameBytes)
  {
    var q, h := w / g.widthStep, g.height;
    assert w == q * g.widthStep + w % g.widthStep;
    if h < q {
      MulAtLeast(h, q, g.widthStep);
    } else if q < h {
      LastRow(q, h, g.widthStep);
      LastRow(q, h, g.rowBytes);
    }
  }

  lemma LastRow(q: nat, h: nat, d: nat)
    requires q < h && d > 0
    ensures q + 1 == h ==> q * d + d == h * d
    ensures q + 1 < h ==> q * d + d < h * d
  {
    if q + 1 == h {
      assert h * d == q * d + d;
    } else {
      MulAtLeast(q + 1, h, d);
      assert (q + 1) * d == q * d + d;
    }
  }

  /** The decoder's write offset and the number of pixel bytes it stands for determine each
      other as long as the offset is not inside padding. */
  lemma PosInverse(g: Geometry, i: nat)
    requires g.Valid()
    ensures Pos(g, i) % g.widthStep == i % g.rowBytes
    ensures PixelsBefore(g, Pos(g, i)) == i
  {
    DivModUnique(Pos(g, i), g.widthStep, i / g.rowBytes, i % g.rowBytes);
  }

  lemma PixelsBeforeSame(g: Geometry, w: nat)
    requires g.Valid() && g.widthStep == g.rowBytes
    ensures PixelsBefore(g, w) == w
  {
  }

  lemma PixelsBeforeZero(g: Geometry)
    requires g.Valid()
    ensures PixelsBefore(g, 0) == 0
  {
    DivModUnique(0, g.widthStep, 0, 0);
  }

  lemma PixelsBeforeInverse(g: Geometry, w: nat)
    requires g.Valid() && w % g.widthStep < g.rowBytes
    ensures Pos(g, PixelsBefore(g, w)) == w
    ensures PixelsBefore(g, w) % g.rowBytes == w % g.widthStep
    ensures w < g.imageSize ==> PixelsBefore(g, w) < g.frameBytes
  {
    DivModUnique(PixelsBefore(g, w), g.rowBytes, w / g.widthStep, w % g.widthStep);
    if w < g.imageSize {
      RowOfOffset(g, w);
    }
  }

  /** An image without its row padding: the first n pixel bytes. */
  function Pixels(g: Geometry, image: seq<byte>, n: nat): (p: seq<byte>)
    requires g.Valid() && |image| == g.imageSize && n <= g.frameBytes
    ensures |p| == n
  {
    seq(n, i requires 0 <= i < n => PosInImage(g, i); image[Pos(g, i)])
  }

  /** Without padding, stripping it changes nothing. */
  lemma PixelsUnpadded(g: Geometry, image: seq<byte>, n: nat)
    requires g.Valid() && g.widthStep == g.rowBytes
    requires |image| == g.imageSize && n <= g.frameBytes
    ensures Pixels(g, image, n) == image[..n]
  {
  }

  /** Copying k bytes that do not cross a row end to the place of pixel byte n extends the
      frame by exactly them. */
  lemma CopyExtendsPixels(g: Geometry, before: seq<byte>, after: seq<byte>, n: nat, bytes: seq<byte>)
    requires g.Valid() && |before| == |after| == g.imageSize
    requires n % g.rowBytes + |bytes| <= g.rowBytes && n + |bytes| <= g.frameBytes
    requires Pos(g, n) + |bytes| <= g.imageSize
    requires forall i :: 0 <= i < |before| ==>
      after[i] == if Pos(g, n) <= i < Pos(g, n) + |bytes| then bytes[i - Pos(g, n)] else before[i]
    ensures Pixels(g, after, n + |bytes|) == Pixels(g, before, n) + bytes
  {
    var got, want := Pixels(g, after, n + |bytes|), Pixels(g, before, n) + bytes;
    forall i | 0 <= i < n + |bytes| ensures got[i] == want[i] {
      CopyPlaces(g, n, |bytes|, i);
    }
  }

  lemma CopyPlaces(g: Geometry, n: nat, k: nat, i: nat)
    requires g.Valid() && n % g.rowBytes + k <= g.rowBytes && n + k <= g.frameBytes
    requires i < n + k
    ensures Pos(g, i) < g.imageSize
    ensures i < n ==> Pos(g, i) < Pos(g, n)
    ensures i >= n ==> Pos(g, i) == Pos(g, n) + (i - n)
  {
    PosInImage(g, i);
    if i < n {
      PosIncreases(g, i, n);
    } else {
      PosWithinRow(g, n, i - n);
    }
  }

  /** Where the unpadded writer goes after copying k bytes to offset w. */
  function NextOffset(g: Geometry, w: nat, k: nat): nat
    requires g.Valid()
  {
    if (w + k) % g.widthStep == g.rowBytes
    then (w + k + (g.widthStep - g.rowBytes)) % g.imageSize
    else w + k
  }

  lemma PixelsBeforeAt(g: Geometry, w: nat, q: nat, r: nat)
    requires g.Valid() && w == q * g.widthStep + r && r < g.widthStep
    ensures w / g.widthStep == q && w % g.widthStep == r
    ensures PixelsBefore(g, w) == q * g.rowBytes + r
  {
    DivModUnique(w, g.widthStep, q, r);
  }

  /** Inside a row the pixel bytes are counted one by one. */
  lemma SameRow(g: Geometry, w: nat, k: nat)
    requires g.Valid() && w % g.widthStep + k < g.widthStep
    ensures (w + k) % g.widthStep == w % g.widthStep + k && PixelsBefore(g, w + k) == PixelsBefore(g, w) + k
    ensures PixelsBefore(g, w) == (w / g.widthStep) * g.rowBytes + w % g.widthStep
  {
    var q, r := w / g.widthStep, w % g.widthStep;
    assert w == q * g.widthStep + r;
    PixelsBeforeAt(g, w + k, q, r + k);
  }

  lemma MidRowAdvances(g: Geometry, w: nat, k: nat)
    requires g.Valid() && g.rowBytes < g.widthStep && w < g.imageSize
    requires 0 < k && w % g.widthStep + k < g.rowBytes
    ensures NextOffset(g, w, k) == w + k && Advances(g, w, k, w + k)
  {
    hide Geometry.Sized, PixelsBefore;
    RowOfOffset(g, w);
    SameRow(g, w, k);
  }

  lemma SkipToNextRow(step: nat, row: nat, size: nat, q: nat, r: nat, k: nat)
    requires r + k == row < step && q * step + step <= size
    ensures (q * step + r + k) % step == row
    ensures (q * step + r + k + (step - row)) % size == if q * step + step == size then 0 else q * step + step
  {
    DivModUnique(q * step + r + k, step, q, row);
    ModSmall(q * step + step, size);
  }

  lemma RowStart(g: Geometry, q: nat)
    requires g.Valid()
    ensures (q * g.widthStep + g.widthStep) % g.widthStep == 0
    ensures PixelsBefore(g, q * g.widthStep + g.widthStep) == q * g.rowBytes + g.rowBytes
  {
    assert q * g.widthStep + g.widthStep == (q + 1) * g.widthStep;
    assert q * g.rowBytes + g.rowBytes == (q + 1) * g.rowBytes;
    DivModUnique(q * g.widthStep + g.widthStep, g.widthStep, q + 1, 0);
  }

  lemma NextOffsetRowEnd(g: Geometry, w: nat, k: nat)
    requires g.Valid() && g.rowBytes < g.widthStep && w < g.imageSize
    requires 0 < k && w % g.widthStep + k == g.rowBytes
    ensures w + k <= g.imageSize && w / g.widthStep < g.height
    ensures var q := w / g.widthStep;
            && PixelsBefore(g, w) + k == q * g.rowBytes + g.rowBytes
            && NextOffset(g, w, k) == (if q + 1 == g.height then 0 else q * g.widthStep + g.widthStep)
  {
    hide Geometry.Sized;
    RowOfOffset(g, w);
    SkipToNextRow(g.widthStep, g.rowBytes, g.imageSize, w / g.widthStep, w % g.widthStep, k);
  }

  lemma RowEndAdvances(g: Geometry, w: nat, k: nat, next: nat, q: nat)
    requires g.Valid() && w < g.imageSize && w + k <= g.imageSize
    requires q < g.height && PixelsBefore(g, w) + k == q * g.rowBytes + g.rowBytes
    requires next == if q + 1 == g.height then 0 else q * g.widthStep + g.widthStep
    ensures Advances(g, w, k, next)
  {
    hide PixelsBefore;
    RowStart(g, q);
    LastRow(q, g.height, g.widthStep);
    LastRow(q, g.height, g.rowBytes);
    ModSmall(0, g.widthStep);
  }

  /** Copying k bytes at offset w and going on at `next` keeps the writer out of the padding,
      advances it by k pixel bytes, and brings it back to 0 exactly when the frame is full. */
  ghost predicate Advances(g: Geometry, w: nat, k: nat, next: nat)
    requires g.Valid()
  {
    && w + k <= g.imageSize
    && PixelsBefore(g, w) + k <= g.frameBytes
    && next < g.imageSize
    && next % g.widthStep < g.rowBytes
    && (next == 0 <==> PixelsBefore(g, w) + k == g.frameBytes)
    && (next != 0 ==> PixelsBefore(g, next) == PixelsBefore(g, w) + k)
  }

  lemma NextOffsetAdvances(g: Geometry, w: nat, k: nat)
    requires g.Valid() && g.rowBytes < g.widthStep && w < g.imageSize
    requires 0 < k && w % g.widthStep + k <= g.rowBytes
    ensures Advances(g, w, k, NextOffset(g, w, k))
  {
    hide Advances, PixelsBefore, NextOffset, Geometry.Sized;
    var col, next := w % g.widthStep, NextOffset(g, w, k);
    if col + k < g.rowBytes {
      MidRowAdvances(g, w, k);
    } else {
      var q := w / g.widthStep;
      NextOffsetRowEnd(g, w, k);
      RowEndAdvances(g, w, k, next, q);
    }
  }
}
