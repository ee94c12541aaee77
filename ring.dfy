/**
 * The byte arena that every trace entry is written into: a fixed-size
 * circular buffer addressed by a monotonically advancing 32-bit logical
 * cursor, reduced modulo the arena size whenever it touches memory.
 */
module Ring {
  import opened Bytes
  import opened Arith

  /** Headroom below UINT32_MAX at which the cursor is renormalised. */
  const ROLLOVER_HEADROOM: u32 := 10240

  /** normalize(): the arena offset of a logical index. */
  function Normalize(index: u32, size: u32): (r: u32)
    requires size > 0
    ensures r < size
  {
    index % size
  }

  /** isIndexRollingOver(): the cursor is within the headroom of UINT32_MAX. */
  predicate IsIndexRollingOver(index: u32) {
    index > UINT32_MAX - ROLLOVER_HEADROOM
  }

  /** The offset at which allocate() hands out space for a cursor value. */
  function AllocBase(cursor: u32, size: u32): u32
    requires size > 0
  {
    if IsIndexRollingOver(cursor) then Normalize(cursor, size) else cursor
  }

  /** Normalising twice is normalising once. */
  lemma NormalizeIdempotent(index: u32, size: u32)
    requires size > 0
    ensures Normalize(Normalize(index, size), size) == Normalize(index, size)
  {
    ModBelow(Normalize(index, size), size);
  }

  /** Renormalising the cursor in allocate() keeps it on the same arena offset. */
  lemma AllocBaseSameOffset(cursor: u32, size: u32)
    requires size > 0
    ensures Normalize(AllocBase(cursor, size), size) == Normalize(cursor, size)
  {
    if IsIndexRollingOver(cursor) {
      NormalizeIdempotent(cursor, size);
    }
  }

  /**
   * The allocation never wraps the 32-bit cursor: for entries no longer than
   * the headroom and an arena that leaves the headroom free, ret + len fits.
   */
  lemma AllocNoOverflow(cursor: u32, size: u32, len: u32)
    requires 0 < size && size as int + ROLLOVER_HEADROOM as int <= UINT32_MAX as int
    requires len <= ROLLOVER_HEADROOM
    ensures AllocBase(cursor, size) as int + len as int <= UINT32_MAX as int
  {
  }

  /** Two logical indices share an arena offset iff they differ by a multiple of size. */
  lemma {:induction false} NormalizeCongruent(a: u32, b: u32, size: u32)
    requires size > 0
    ensures Normalize(a, size) == Normalize(b, size) <==> (a - b) % size == 0
  {
    ModCongruent(a as int, b as int, size as int);
  }

  /** The len bytes of the arena starting at offset start, wrapping at the end. */
  function Window(arena: seq<u8>, start: nat, len: nat): (w: seq<u8>)
    requires |arena| > 0
    ensures |w| == len
  {
    seq(len, k requires 0 <= k < len => arena[(start + k) % |arena|])
  }

  /** A window one byte longer ends with the byte after the shorter one. */
  lemma WindowSnoc(arena: seq<u8>, start: nat, len: nat)
    requires |arena| > 0
    ensures Window(arena, start, len + 1) == Window(arena, start, len) + [arena[(start + len) % |arena|]]
  {
  }

  /**
   * The arena after src is copied in at offset start, one byte after the
   * other, wrapping at the end.
   */
  function Overwrite(arena: seq<u8>, start: nat, src: seq<u8>): (r: seq<u8>)
    requires start < |arena| && |src| <= |arena|
    ensures |r| == |arena|
    decreases |src|
  {
    if src == [] then arena
    else Overwrite(arena, start, src[..|src| - 1])[Slot(start, |src| - 1, |arena|) := src[|src| - 1]]
  }

  /**
   * The byte at offset j after the copy: the byte of src that lands
   * (j - start) mod size bytes after start, or the old byte where no byte
   * of src lands.
   */
  lemma {:induction false} OverwriteAt(arena: seq<u8>, start: nat, src: seq<u8>, j: nat)
    requires start < |arena| && |src| <= |arena| && j < |arena|
    ensures Overwrite(arena, start, src)[j]
         == if (j - start) % |arena| < |src| then src[(j - start) % |arena|] else arena[j]
    decreases |src|
  {
    var n := |arena|;
    if src != [] {
      var m := |src|;
      var init := src[..m - 1];
      var p := Slot(start, m - 1, n);
      assert Overwrite(arena, start, src) == Overwrite(arena, start, init)[p := src[m - 1]];
      OverwriteAt(arena, start, init, j);
      LastSlot(start, j, m - 1, n);
    }
  }

  /** Offset j is the slot k bytes after start exactly when it lies k bytes after start. */
  lemma LastSlot(start: nat, j: nat, k: nat, n: nat)
    requires start < n && j < n && k < n
    ensures j == Slot(start, k, n) <==> (j - start) % n == k
  {
    if j == Slot(start, k, n) {
      OffsetBack(start, k, n);
    } else {
      SlotOfOffset(start, j, n);
    }
  }

  lemma OffsetBack(start: nat, k: nat, n: nat)
    requires start < n && k < n
    ensures ((start + k) % n - start) % n == k
  {
    if start + k < n {
      ModBelow(start + k, n);
      ModBelow(k, n);
    } else {
      ModOnce(start + k, n);
      assert (start + k) % n - start == k - n;
      assert k - n == -1 * n + k;
    }
  }

  /** Reading back the bytes just copied in gives them back. */
  lemma {:induction false} WindowOfOverwrite(arena: seq<u8>, start: nat, src: seq<u8>)
    requires start < |arena| && |src| <= |arena|
    ensures Window(Overwrite(arena, start, src), start, |src|) == src
  {
    forall k | 0 <= k < |src|
      ensures Window(Overwrite(arena, start, src), start, |src|)[k] == src[k]
    {
      CopiedByteAt(arena, start, src, k);
    }
  }

  /** The k-th byte copied in sits k bytes after offset start. */
  lemma CopiedByteAt(arena: seq<u8>, start: nat, src: seq<u8>, k: nat)
    requires start < |arena| && |src| <= |arena| && k < |src|
    ensures Overwrite(arena, start, src)[(start + k) % |arena|] == src[k]
  {
    OffsetBack(start, k, |arena|);
    OverwriteAt(arena, start, src, (start + k) % |arena|);
  }

  /** The arena offset reached k bytes after offset start. */
  function Slot(start: nat, k: nat, n: nat): nat
    requires n > 0
  {
    (start + k) % n
  }

  /** Offset j is reached (j - start) mod n bytes after offset start. */
  lemma SlotOfOffset(start: nat, j: nat, n: nat)
    requires start < n && j < n
    ensures Slot(start, (j - start) % n, n) == j
  {
    var d := (j - start) % n;
    if j >= start {
      ModBelow(j - start, n);
      ModBelow(j, n);
    } else {
      ModNegOnce(j - start, n);
      ModOnce(j + n, n);
    }
  }

  /** A copy at start changes no byte outside the offsets start + k, k < |src|. */
  lemma {:induction false} OverwriteFrame(arena: seq<u8>, start: nat, src: seq<u8>, j: nat)
    requires start < |arena| && |src| <= |arena| && j < |arena|
    requires forall k :: 0 <= k < |src| ==> Slot(start, k, |arena|) != j
    ensures Overwrite(arena, start, src)[j] == arena[j]
  {
    SlotOfOffset(start, j, |arena|);
    OverwriteAt(arena, start, src, j);
  }

  /**
   * The arena as a class: the source's RingBuffer, whose cursor and
   * wrap-around counter change on every allocation and whose bytes are
   * copied in and out with memcpy.
   */
  class RingBuffer {
    const size: u32
    const buffer: array<u8>
    const threadSafe: bool
    var currentIndex: u32
    /** stats_.indexWrapAroundCount */
    var wrapCount: nat

    ghost predicate Valid()
      reads this
    {
      size > 0 && buffer.Length == size as int
    }

    /** The arena's bytes. */
    ghost function Arena(): (a: seq<u8>)
      reads this, buffer
      requires Valid()
      ensures |a| == size as int
    {
      buffer[..]
    }

    constructor (size: u32, threadSafe: bool)
      requires size > 0
      ensures Valid() && fresh(buffer)
      ensures this.size == size && this.threadSafe == threadSafe
      ensures Arena() == seq(size as int, _ => 0)
      ensures currentIndex == 0 && wrapCount == 0
    {
      this.size := size;
      this.threadSafe := threadSafe;
      buffer := new u8[size](_ => 0);
      currentIndex := 0;
      wrapCount := 0;
    }

    /**
     * allocate(): hands out the current cursor (renormalised first when it
     * is about to wrap) and advances the cursor by len.
     */
    method Allocate(len: u32) returns (ret: u32)
      requires Valid()
      modifies this`currentIndex, this`wrapCount
      ensures ret == AllocBase(old(currentIndex), size)
      ensures Normalize(ret, size) == Normalize(old(currentIndex), size)
      ensures wrapCount == old(wrapCount) + (if IsIndexRollingOver(old(currentIndex)) then 1 else 0)
      ensures IsIndexRollingOver(old(currentIndex)) ==> HasWrappedAround()
      ensures currentIndex == Wrap32(ret as int + len as int)
    {
      if IsIndexRollingOver(currentIndex) {
        currentIndex := Normalize(currentIndex, size);
        wrapCount := wrapCount + 1;
      }
      ret := currentIndex;
      currentIndex := Wrap32(currentIndex as int + len as int);
      AllocBaseSameOffset(old(currentIndex), size);
    }

    /** getCurrentIndex() */
    method GetCurrentIndex() returns (r: u32)
      ensures r == currentIndex
    {
      r := currentIndex;
    }

    /** hasWrappedAround(): some allocation has renormalised the cursor. */
    predicate HasWrappedAround()
      reads this
    {
      wrapCount > 0
    }

    /** get(): copies length bytes out of the arena, in two pieces when they wrap. */
    method Get(index: u32, length: u32) returns (dst: seq<u8>)
      requires Valid() && length <= size
      ensures dst == Window(Arena(), Normalize(index, size), length as nat)
    {
      var n := Normalize(index, size);
      if n + length <= size {
        dst := buffer[n..n + length];
        forall k | 0 <= k < length as int
          ensures dst[k] == Window(Arena(), n as nat, length as nat)[k]
        {
          ModBelow(n + k, size as int);
        }
      } else {
        var copyLength := size - n;
        dst := buffer[n..] + buffer[..length - copyLength];
        forall k | 0 <= k < length as int
          ensures dst[k] == Window(Arena(), n as nat, length as nat)[k]
        {
          if k < copyLength as int {
            ModBelow(n + k, size as int);
          } else {
            ModOnce(n + k, size as int);
          }
        }
      }
    }

    /** getByte(): the byte at a logical index. */
    method GetByte(index: u32) returns (b: u8)
      requires Valid()
      ensures [b] == Window(Arena(), Normalize(index, size), 1)
    {
      b := buffer[Normalize(index, size)];
      ModBelow(Normalize(index, size) as int, size as int);
    }

    /**
     * getInt()/getLong64()/getDouble()/getPtr(): a little-endian value of
     * width bytes (4 or 8) read through get().
     */
    method GetValue(index: u32, width: u32) returns (v: nat)
      requires Valid() && width <= size
      ensures v == FromLE(Window(Arena(), Normalize(index, size), width as nat))
      ensures v < Pow256(width as nat)
    {
      var bytes := Get(index, width);
      v := FromLE(bytes);
    }

    /**
     * getString(): copies bytes up to (not including) the first zero,
     * stopping after a whole arena's worth; returns how many were copied.
     */
    method GetString(index: u32) returns (count: u32, dst: seq<u8>)
      requires Valid()
      ensures count <= size
      ensures dst == Window(Arena(), Normalize(index, size), count as nat)
      ensures forall k :: 0 <= k < |dst| ==> dst[k] != 0
      ensures count < size ==> Window(Arena(), Normalize(index, size), count as nat + 1)[count] == 0
    {
      var n := Normalize(index, size);
      var bi := n;
      var di: u32 := 0;
      dst := [];
      ModBelow(n as int, size as int);
      while buffer[bi] != 0 && di < size
        invariant di <= size && bi < size
        invariant bi as int == (n + di) % size as int
        invariant dst == Window(Arena(), n as nat, di as nat)
        invariant forall k :: 0 <= k < |dst| ==> dst[k] != 0
        decreases size - di
      {
        WindowSnoc(Arena(), n as nat, di as nat);
        dst := dst + [buffer[bi]];
        di := di + 1;
        ModStep(n as int + di as int - 1, size as int);
        bi := Normalize(bi + 1, size);
      }
      count := di;
    }

    /** set(): copies the first length bytes of src into the arena, wrapping at the end. */
    method Set(index: u32, src: seq<u8>, length: u32)
      requires Valid() && length <= size && |src| >= length as int
      modifies buffer
      ensures Arena() == Overwrite(old(Arena()), Normalize(index, size), src[..length])
      ensures |src| == length as int ==> Arena() == Overwrite(old(Arena()), Normalize(index, size), src)
    {
      var n := Normalize(index, size);
      ghost var before := buffer[..];
      if n + length <= size {
        forall k | 0 <= k < length as int {
          buffer[n as int + k] := src[k];
        }
      } else {
        var copyLength := size - n;
        forall k | 0 <= k < copyLength as int {
          buffer[n as int + k] := src[k];
        }
        forall k | 0 <= k < (length - copyLength) as int {
          buffer[k] := src[copyLength as int + k];
        }
      }
      forall j | 0 <= j < size as int
        ensures buffer[j] == Overwrite(before, n as nat, src[..length])[j]
      {
        ByteAfterCopy(before, n as nat, src[..length], j);
      }
      assert buffer[..] == Overwrite(before, n as nat, src[..length]);
      if |src| == length as int {
        assert src[..length] == src;
      }
    }

    /** The byte at arena offset j after a copy at start: which byte landed there. */
    static lemma ByteAfterCopy(arena: seq<u8>, start: nat, src: seq<u8>, j: nat)
      requires start < |arena| && |src| <= |arena| && j < |arena|
      ensures start <= j < start + |src| ==> Overwrite(arena, start, src)[j] == src[j - start]
      ensures j < start + |src| - |arena| ==> Overwrite(arena, start, src)[j] == src[j + |arena| - start]
      ensures !(start <= j < start + |src|) && !(j < start + |src| - |arena|)
              ==> Overwrite(arena, start, src)[j] == arena[j]
    {
      var n := |arena|;
      OverwriteAt(arena, start, src, j);
      if start <= j {
        ModBelow(j - start, n);
      } else {
        ModNegOnce(j - start, n);
      }
    }

    /**
     * compare(): 0 when the length bytes at index equal those of p, -1 at the
     * first difference.
     */
    method Compare(index: u32, p: seq<u8>, length: u32) returns (r: int)
      requires Valid() && |p| >= length as int
      ensures r == 0 || r == -1
      ensures r == 0 <==> Window(Arena(), Normalize(index, size), length as nat) == p[..length]
    {
      var n := Normalize(index, size);
      var bi := n;
      var di: u32 := 0;
      var left := length;
      ModBelow(n as int, size as int);
      while left > 0
        invariant di as int + left as int == length as int
        invariant bi < size && bi as int == (n + di) % size as int
        invariant Window(Arena(), n as nat, di as nat) == p[..di]
      {
        if buffer[bi] != p[di] {
          assert Window(Arena(), n as nat, length as nat)[di] != p[..length][di];
          return -1;
        }
        assert Window(Arena(), n as nat, di as nat + 1) == Window(Arena(), n as nat, di as nat) + [buffer[bi]];
        left := left - 1;
        di := di + 1;
        ModStep(n as int + di as int - 1, size as int);
        bi := Normalize(bi + 1, size);
      }
      return 0;
    }
  }
}
