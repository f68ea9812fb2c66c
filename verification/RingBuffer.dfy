/** io/ring_buffer.h: a byte queue of size - 1 places over a circular array. */
module RingBuffers {
  import opened Words

  /** `x & (size - 1)`, which for a power of two is the remainder. */
  function Mask(x: int, size: nat): (m: nat)
    requires size > 0
    ensures m < size
  {
    Rem(x, size)
  }

  lemma {:induction false} MaskNear(x: int, size: nat)
    requires size > 0 && 0 - size as int <= x < 2 * size
    ensures Mask(x, size) == if x < 0 then x + size else if x < size then x else x - size
  {
    if x < 0 {
      var q := x / size;
      assert x == q * size + x % size;
      if q <= -2 {
        Spread(size, 1, 0 - q);
      }
    } else if x < size {
      DivRem(size, 0, x);
    } else {
      DivRem(size, 1, x - size);
    }
  }

  /** The bytes from position r up to position w of a circular array, oldest first. */
  function Window(b: seq<Byte>, r: nat, w: nat): (s: seq<Byte>)
    requires r < |b| && w < |b|
    ensures |s| < |b|
  {
    if r <= w then b[r..w] else b[r..] + b[..w]
  }

  /** Places that can be written at w while the reader stands at r. */
  function Room(size: nat, r: nat, w: nat): int {
    if r > w then r - w - 1 else r - w - 1 + size
  }

  lemma {:induction false} WindowAppend(b: seq<Byte>, r: nat, w: nat, k: nat)
    requires r < |b| && w < |b| && 0 < k && w + k <= |b| && k <= Room(|b|, r, w)
    ensures Window(b, r, if w + k == |b| then 0 else w + k) == Window(b, r, w) + b[w..w + k]
  {
    if r <= w {
      SliceJoin(b, r, w, w + k);
      if w + k == |b| && r > 0 {
        assert b[..0] == [];
        assert b[r..] == b[r..w + k];
        assert b[r..] + b[..0] == b[r..];
      }
    } else {
      SliceJoin(b, 0, w, w + k);
      assert b[r..] + (b[..w] + b[w..w + k]) == b[r..] + b[..w] + b[w..w + k];
    }
  }

  lemma {:induction false} SliceJoin(b: seq<Byte>, i: nat, j: nat, k: nat)
    requires i <= j <= k <= |b|
    ensures b[i..k] == b[i..j] + b[j..k]
  {
  }

  lemma {:induction false} WindowDrop(b: seq<Byte>, r: nat, w: nat)
    requires r < |b| && w < |b| && r != w
    ensures Window(b, r, w) == [b[r]] + Window(b, if r + 1 == |b| then 0 else r + 1, w)
  {
  }

  /** Stores beyond the write pointer do not show. */
  lemma {:induction false} WindowStore(b: seq<Byte>, r: nat, w: nat, i: nat, v: Byte)
    requires r < |b| && w < |b| && w + i < |b| && (i == 0 || i < Room(|b|, r, w))
    ensures Window(b[w + i := v], r, w) == Window(b, r, w)
  {
  }

  /** Two bytes stored and published at once: as if one after the other. */
  lemma {:induction false} WindowPush2(b: seq<Byte>, r: nat, w: nat, v1: Byte, v2: Byte)
    requires r < |b| && w + 1 < |b|
    ensures var b2 := b[w := v1][w + 1 := v2];
      var q := Window(b, r, w);
      var q2 := Window(b2, r, if w + 2 == |b| then 0 else w + 2);
      && q2 == Pushed(Pushed(q, |b| - 1, v1), |b| - 1, v2)
      && (|q| <= |b| - 3 ==> q2 == q + [v1, v2])
  {
    var b1: seq<Byte> := b[w := v1];
    var b2: seq<Byte> := b1[w + 1 := v2];
    if Room(|b|, r, w) >= 2 {
      hide Window;
      WindowStore(b, r, w, 0, v1);
      WindowStore(b1, r, w, 1, v2);
      WindowAppend(b2, r, w, 2);
      assert b2[w..w + 2] == [v1, v2];
      WindowSize(b, r, w);
      var q := Window(b, r, w);
      assert q + [v1] + [v2] == q + [v1, v2];
    } else {
      WindowFull(b, r, w, v1, v2);
    }
  }

  lemma {:induction false} WindowSize(b: seq<Byte>, r: nat, w: nat)
    requires r < |b| && w < |b|
    ensures |Window(b, r, w)| == |b| - 1 - Room(|b|, r, w)
  {
  }

  /** With one free place or none the reader is overtaken. */
  lemma {:induction false} WindowFull(b: seq<Byte>, r: nat, w: nat, v1: Byte, v2: Byte)
    requires r < |b| && w + 1 < |b| && Room(|b|, r, w) < 2
    ensures var b2 := b[w := v1][w + 1 := v2];
      var q := Window(b, r, w);
      && Window(b2, r, if w + 2 == |b| then 0 else w + 2) == Pushed(Pushed(q, |b| - 1, v1), |b| - 1, v2)
      && |q| > |b| - 3
  {
    WindowSize(b, r, w);
  }

  class RingBuffer {
    const size: nat
    const buffer: array<Byte>
    var readPtr: nat
    var writePtr: nat

    constructor (size: nat)
      requires 0 < size < 256 && PowerOfTwo(size)
      ensures Valid() && this.size == size && Contents() == [] && fresh(buffer)
      ensures readPtr == writePtr == 0
    {
      this.size := size;
      buffer := new Byte[size](_ => 0);
      readPtr, writePtr := 0, 0;
    }

    ghost predicate Valid()
      reads this
    {
      0 < size < 256 && PowerOfTwo(size) && buffer.Length == size && readPtr < size && writePtr < size
    }

    /** The unread bytes, oldest first. */
    ghost function Contents(): (s: seq<Byte>)
      requires Valid()
      reads this, buffer
      ensures |s| < size
    {
      Window(buffer[..], readPtr, writePtr)
    }

    function Capacity(): nat { size }

    function Writable(): (n: nat)
      requires Valid()
      reads this, buffer
      ensures n == size - 1 - |Contents()|
    {
      MaskNear(readPtr - writePtr - 1, size);
      Mask(readPtr - writePtr - 1, size)
    }

    function Readable(): (n: nat)
      requires Valid()
      reads this, buffer
      ensures n == |Contents()|
    {
      MaskNear(writePtr - readPtr, size);
      Mask(writePtr - readPtr, size)
    }

    /** Unguarded: on a full queue it closes the circle and every unread byte is lost. */
    method Overwrite(v: Byte)
      requires Valid()
      modifies `writePtr, buffer
      ensures Valid()
      ensures Contents() == Pushed(old(Contents()), size - 1, v)
      ensures writePtr == if old(writePtr) + 1 == size then 0 else old(writePtr) + 1
    {
      hide PowerOfTwo;
      var w := writePtr;
      MaskNear(w + 1, size);
      buffer[w] := v;
      ghost var b := old(buffer[..]);
      assert buffer[..] == b[w := v];
      if Room(size, readPtr, w) > 0 {
        WindowStore(b, readPtr, w, 0, v);
        WindowAppend(b[w := v], readPtr, w, 1);
      }
      writePtr := Mask(w + 1, size);
    }

    /** Publishes two bytes at once; the second store is not masked, so it must not be the last cell's. */
    method Overwrite2(v1: Byte, v2: Byte)
      requires Valid() && writePtr + 1 < size
      modifies `writePtr, buffer
      ensures Valid()
      ensures Contents() == Pushed(Pushed(old(Contents()), size - 1, v1), size - 1, v2)
      ensures |old(Contents())| <= size - 3 ==> Contents() == old(Contents()) + [v1, v2]
      ensures writePtr == if old(writePtr) + 2 == size then 0 else old(writePtr) + 2
    {
      hide PowerOfTwo;
      var w := writePtr;
      MaskNear(w + 2, size);
      ghost var b: seq<Byte> := buffer[..];
      buffer[w] := v1;
      buffer[w + 1] := v2;
      assert buffer[..] == b[w := v1][w + 1 := v2];
      WindowPush2(b, readPtr, w, v1, v2);
      writePtr := Mask(w + 2, size);
    }

    /** Removes the oldest byte. From an empty queue it takes a stale one, and all other cells become unread. */
    method ImmediateRead() returns (result: Byte)
      requires Valid()
      modifies `readPtr
      ensures Valid()
      ensures result == buffer[old(readPtr)]
      ensures old(Contents()) != [] ==> old(Contents()) == [result] + Contents()
      ensures old(Contents()) == [] ==> |Contents()| == size - 1
    {
      hide PowerOfTwo;
      var r := readPtr;
      MaskNear(r + 1, size);
      if r != writePtr {
        WindowDrop(buffer[..], r, writePtr);
      }
      result := buffer[r];
      readPtr := Mask(r + 1, size);
    }

    method NonBlockingWrite(v: Byte) returns (done: bool)
      requires Valid()
      modifies `writePtr, buffer
      ensures Valid()
      ensures done <==> |old(Contents())| < size - 1
      ensures Contents() == if done then old(Contents()) + [v] else old(Contents())
    {
      if Writable() > 0 {
        Overwrite(v);
        return true;
      }
      return false;
    }

    method NonBlockingRead() returns (result: int)
      requires Valid()
      modifies `readPtr
      ensures Valid()
      ensures old(Contents()) == [] ==> result == -1 && Contents() == []
      ensures old(Contents()) != [] ==> result == old(Contents())[0] && Contents() == old(Contents())[1..]
    {
      if Readable() > 0 {
        result := ImmediateRead();
      } else {
        result := -1;
      }
    }

    method Flush()
      requires Valid()
      modifies `writePtr
      ensures Valid() && Contents() == []
    {
      writePtr := readPtr;
    }
  }

  /** A queue of the given capacity after an unguarded write. */
  function Pushed(q: seq<Byte>, capacity: int, v: Byte): seq<Byte> {
    if |q| < capacity then q + [v] else []
  }
}
