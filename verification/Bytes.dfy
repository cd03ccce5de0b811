/** Byte strings and the two ways the data path cuts them: the sender's chunks
    (every chunk full except perhaps the last) and the decoder's fixed-size blocks
    (only full ones, the rest is kept). */
module Bytes {

  type byte = x: int | 0 <= x < 256

  function Min(a: nat, b: nat): nat {
    if a <= b then a else b
  }

  function Flatten<T>(parts: seq<seq<T>>): seq<T> {
    if parts == [] then [] else parts[0] + Flatten(parts[1..])
  }

  lemma {:induction false} FlattenAppend<T>(a: seq<seq<T>>, b: seq<seq<T>>)
    ensures Flatten(a + b) == Flatten(a) + Flatten(b)
  {
    if a == [] {
      assert a + b == b;
    } else {
      FlattenAppend(a[1..], b);
      assert (a + b)[1..] == a[1..] + b && (a + b)[0] == a[0];
      assert a[0] + (Flatten(a[1..]) + Flatten(b)) == a[0] + Flatten(a[1..]) + Flatten(b);
    }
  }

  /** The full blocks of `size` bytes at the front of s. */
  function Blocks<T>(size: nat, s: seq<T>): seq<seq<T>>
    requires size > 0
    decreases |s|
  {
    if |s| < size then [] else [s[..size]] + Blocks(size, s[size..])
  }

  /** What is left of s behind its full blocks. */
  function Rest<T>(size: nat, s: seq<T>): (rest: seq<T>)
    requires size > 0
    ensures |rest| < size
    decreases |s|
  {
    if |s| < size then s else Rest(size, s[size..])
  }

  lemma SliceAppend<T>(s: seq<T>, i: nat, k: nat)
    requires i + k <= |s|
    ensures s[..i] + s[i..i + k] == s[..i + k]
  {
  }

  lemma OneBlock<T>(size: nat, s: seq<T>)
    requires size > 0 && |s| <= size
    ensures Blocks(size, s) == (if |s| == size then [s] else [])
    ensures Rest(size, s) == (if |s| == size then [] else s)
  {
    if |s| == size {
      assert s[..size] == s && s[size..] == [];
    }
  }

  /** Cutting is independent of how the bytes arrive: cutting s and then what is left of it
      together with t is cutting s + t. */
  lemma {:induction false} BlocksAppend<T>(size: nat, s: seq<T>, t: seq<T>)
    requires size > 0
    ensures Blocks(size, s + t) == Blocks(size, s) + Blocks(size, Rest(size, s) + t)
    ensures Rest(size, s + t) == Rest(size, Rest(size, s) + t)
    decreases |s|
  {
    if |s| >= size {
      BlocksAppend(size, s[size..], t);
      assert (s + t)[size..] == s[size..] + t;
      assert (s + t)[..size] == s[..size];
    }
  }

  /** A run that cuts data into blocks behind those in `cut`, continuing a partial one, has come to
      `offset`. */
  ghost predicate Cutting<T(!new)>(size: nat, cut: seq<seq<T>>, partial: seq<T>, data: seq<T>, offset: nat,
                                   cut': seq<seq<T>>, partial': seq<T>) {
    && size > 0 && offset <= |data|
    && cut' == cut + Blocks(size, partial + data[..offset])
    && partial' == Rest(size, partial + data[..offset])
  }

  lemma CutBegin<T(!new)>(size: nat, cut: seq<seq<T>>, partial: seq<T>, data: seq<T>)
    requires |partial| < size
    ensures Cutting(size, cut, partial, data, 0, cut, partial)
  {
    assert partial + data[..0] == partial;
  }

  lemma CutMore<T(!new)>(size: nat, cut: seq<seq<T>>, partial: seq<T>, data: seq<T>, offset: nat, next: nat,
                         was: seq<seq<T>>, wasPartial: seq<T>, now: seq<seq<T>>, nowPartial: seq<T>)
    requires Cutting(size, cut, partial, data, offset, was, wasPartial) && offset <= next <= |data|
    requires now == was + Blocks(size, wasPartial + data[offset..next])
    requires nowPartial == Rest(size, wasPartial + data[offset..next])
    ensures Cutting(size, cut, partial, data, next, now, nowPartial)
  {
    hide Blocks, Rest;
    var received, piece := partial + data[..offset], data[offset..next];
    assert received + piece == partial + data[..next];
    BlocksAppend(size, received, piece);
    assert cut + (Blocks(size, received) + Blocks(size, wasPartial + piece))
        == cut + Blocks(size, received) + Blocks(size, wasPartial + piece);
  }

  lemma CutEnd<T(!new)>(size: nat, cut: seq<seq<T>>, partial: seq<T>, data: seq<T>, offset: nat,
                        cut': seq<seq<T>>, partial': seq<T>)
    requires Cutting(size, cut, partial, data, offset, cut', partial') && offset == |data|
    ensures cut' == cut + Blocks(size, partial + data) && partial' == Rest(size, partial + data)
  {
    assert data[..offset] == data;
    hide Blocks, Rest;
  }

  /** Blocks and rest together are the whole input: nothing is lost, added or reordered. */
  lemma {:induction false} BlocksConserve<T>(size: nat, s: seq<T>)
    requires size > 0
    ensures Flatten(Blocks(size, s)) + Rest(size, s) == s
    decreases |s|
  {
    if |s| >= size {
      BlocksConserve(size, s[size..]);
      assert Blocks(size, s)[1..] == Blocks(size, s[size..]);
    }
  }

  /** Cutting the concatenation of whole frames gives the frames back. */
  lemma {:induction false} BlocksOfFrames<T>(size: nat, frames: seq<seq<T>>)
    requires size > 0
    requires forall f :: f in frames ==> |f| == size
    ensures Blocks(size, Flatten(frames)) == frames
    ensures Rest(size, Flatten(frames)) == []
  {
    if frames != [] {
      var tail := Flatten(frames[1..]);
      BlocksOfFrames(size, frames[1..]);
      assert (frames[0] + tail)[..size] == frames[0];
      assert (frames[0] + tail)[size..] == tail;
    }
  }

  /** Cutting a prefix gives a prefix of the blocks. */
  lemma BlocksPrefix<T>(size: nat, s: seq<T>, whole: seq<T>)
    requires size > 0
    requires s <= whole
    ensures Blocks(size, s) <= Blocks(size, whole)
  {
    assert whole == s + whole[|s|..];
    BlocksAppend(size, s, whole[|s|..]);
  }

  /** The pieces a sender with a buffer of `size` bytes drains s in. */
  function Chunks<T>(size: nat, s: seq<T>): seq<seq<T>>
    requires size > 0
    decreases |s|
  {
    if s == [] then [] else [s[..Min(size, |s|)]] + Chunks(size, s[Min(size, |s|)..])
  }

  lemma {:induction false} ChunksJoin<T>(size: nat, s: seq<T>)
    requires size > 0
    ensures Flatten(Chunks(size, s)) == s
    ensures forall c :: c in Chunks(size, s) ==> 0 < |c| <= size
    decreases |s|
  {
    if s != [] {
      var n := Min(size, |s|);
      var rest := Chunks(size, s[n..]);
      ChunksJoin(size, s[n..]);
      assert Chunks(size, s) == [s[..n]] + rest;
      assert ([s[..n]] + rest)[1..] == rest;
      hide Chunks;
      assert Flatten([s[..n]] + rest) == s[..n] + Flatten(rest);
    }
  }
}
