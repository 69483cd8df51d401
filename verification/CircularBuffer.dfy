/**
 Circular buffers: strided block write and read with wrap-around.

 The three copies in the source differ only in the element type, which is a type parameter here.
 */
module CircularBuffer {
  import opened Words
  import opened Divisors

  // ----- Positions

  /** The cell used for sample k of a block that starts at cell o. */
  function Slot(o: nat, inc: nat, k: nat, L: nat): (s: nat)
    requires L > 0
    ensures s < L
  {
    (o + k * inc) % L
  }

  lemma SlotStep(o: nat, inc: nat, k: nat, L: nat)
    requires L > 0 && inc <= L
    ensures var next := Slot(o, inc, k, L) + inc;
      Slot(o, inc, k + 1, L) == if next >= L then next - L else next
  {
    var q, r := (o + k * inc) / L, (o + k * inc) % L;
    assert o + (k + 1) * inc == q * L + (r + inc);
    if r + inc >= L {
      assert o + (k + 1) * inc == (q + 1) * L + (r + inc - L);
      DivModUnique(o + (k + 1) * inc, L, q + 1, r + inc - L);
    } else {
      DivModUnique(o + (k + 1) * inc, L, q, r + inc);
    }
  }

  /** Starting again from where the first a samples ended. */
  lemma SlotAdd(o: nat, inc: nat, a: nat, k: nat, L: nat)
    requires L > 0
    ensures Slot(Slot(o, inc, a, L), inc, k, L) == Slot(o, inc, a + k, L)
  {
    var q := (o + a * inc) / L;
    assert o + (a + k) * inc == Slot(o, inc, a, L) + k * inc + q * L;
    ModDrop(Slot(o, inc, a, L) + k * inc, L, q);
  }

  // ----- Writing

  /** The elements read through a pointer that advances by step. */
  function Samples<T>(src: seq<T>, start: int, step: int, n: nat): (s: seq<T>)
    requires forall k :: 0 <= k < n ==> 0 <= start + k * step < |src|
    ensures |s| == n
    ensures forall k :: 0 <= k < n ==> s[k] == src[start + k * step]
  {
    seq(n, k requires 0 <= k < n => src[start + k * step])
  }

  /** The buffer after the samples have been written one after the other. */
  function Written<T>(cells: seq<T>, L: nat, o: nat, inc: nat, samples: seq<T>): (r: seq<T>)
    requires 0 < L <= |cells|
    ensures |r| == |cells|
  {
    if |samples| == 0 then cells
    else
      var k := |samples| - 1;
      Written(cells, L, o, inc, samples[..k])[Slot(o, inc, k, L) := samples[k]]
  }

  /** None of the n samples after sample k falls on its cell. */
  ghost predicate IsLast(L: nat, o: nat, inc: nat, n: nat, k: nat)
    requires L > 0
  {
    forall j: nat :: k < j < n ==> Slot(o, inc, j, L) != Slot(o, inc, k, L)
  }

  /** None of n samples falls on cell c. */
  ghost predicate NotReached(L: nat, o: nat, inc: nat, n: nat, c: nat)
    requires L > 0
  {
    forall k: nat :: k < n ==> Slot(o, inc, k, L) != c
  }

  /** `arm_circularWrite_f32`, `_q15` and `_q7`; the offset is handed back through 16 bits. */
  method CircularWrite<T>(circBuffer: array<T>, L: int, writeOffset: uint16, bufferInc: int,
                          src: seq<T>, start: int, srcInc: int, blockSize: uint32) returns (newOffset: uint16)
    requires writeOffset < L <= circBuffer.Length && L <= 0x4000_0000
    requires 0 <= bufferInc <= L
    requires forall k :: 0 <= k < blockSize ==> 0 <= start + k * srcInc < |src|
    modifies circBuffer
    ensures circBuffer[..]
         == Written(old(circBuffer[..]), L, writeOffset, bufferInc, Samples(src, start, srcInc, blockSize))
    ensures forall k: nat :: k < blockSize && IsLast(L, writeOffset, bufferInc, blockSize, k) ==>
              circBuffer[(writeOffset + k * bufferInc) % L] == src[start + k * srcInc]
    ensures forall c: nat :: c < circBuffer.Length && NotReached(L, writeOffset, bufferInc, blockSize, c) ==>
              circBuffer[c] == old(circBuffer[c])
    ensures newOffset == ToUint16(Slot(writeOffset, bufferInc, blockSize, L))
         == NextOffset(writeOffset, bufferInc, blockSize, L)
    ensures L <= 0x1_0000 ==> newOffset == Slot(writeOffset, bufferInc, blockSize, L)
  {
    hide Slot, ToInt32, ToUint16, Written;
    var wOffset: int := writeOffset;
    var at := start;
    var i: int := blockSize;
    ghost var all := Samples(src, start, srcInc, blockSize);
    ghost var k := 0;
    FirstSlot(writeOffset, bufferInc, L);
    WrittenNone(circBuffer[..], L, writeOffset, bufferInc, all[..0]);
    while i > 0
      invariant 0 <= i && k == blockSize - i
      invariant wOffset == Slot(writeOffset, bufferInc, k, L)
      invariant at == start + k * srcInc
      invariant circBuffer[..] == Written(old(circBuffer[..]), L, writeOffset, bufferInc, all[..k])
    {
      WrittenOneMore(old(circBuffer[..]), L, writeOffset, bufferInc, all, k);
      SlotStep(writeOffset, bufferInc, k, L);
      circBuffer[wOffset] := src[at];
      at := at + srcInc;
      OffsetFits(wOffset, bufferInc);
      wOffset := ToInt32(wOffset + bufferInc);
      if wOffset >= L {
        wOffset := wOffset - L;
      }
      i := i - 1;
      k := k + 1;
    }
    assert all[..k] == all;
    WrittenCells(old(circBuffer[..]), L, writeOffset, bufferInc, all);
    assert wOffset < 0x1_0000 ==> ToUint16(wOffset) == wOffset by { ShortOffset(wOffset); }
    newOffset := ToUint16(wOffset);
  }

  /** What a block leaves in each cell. */
  lemma WrittenCells<T>(cells: seq<T>, L: nat, o: nat, inc: nat, samples: seq<T>)
    requires 0 < L <= |cells|
    ensures forall k: nat :: k < |samples| && IsLast(L, o, inc, |samples|, k) ==>
              Written(cells, L, o, inc, samples)[(o + k * inc) % L] == samples[k]
    ensures forall c: nat :: c < |cells| && NotReached(L, o, inc, |samples|, c) ==>
              Written(cells, L, o, inc, samples)[c] == cells[c]
  {
    hide Written;
    forall k: nat | k < |samples| && IsLast(L, o, inc, |samples|, k)
      ensures Written(cells, L, o, inc, samples)[(o + k * inc) % L] == samples[k]
    {
      LastWriter(cells, L, o, inc, samples, k);
    }
    forall c: nat | c < |cells| && NotReached(L, o, inc, |samples|, c)
      ensures Written(cells, L, o, inc, samples)[c] == cells[c]
    {
      Untouched(cells, L, o, inc, samples, c);
    }
  }

  lemma OffsetFits(offset: int, inc: int)
    requires 0 <= offset < 0x4000_0000 && 0 <= inc <= 0x4000_0000
    ensures ToInt32(offset + inc) == offset + inc
  {
  }

  lemma ShortOffset(offset: int)
    requires 0 <= offset
    ensures offset < 0x1_0000 ==> ToUint16(offset) == offset
  {
  }

  lemma FirstSlot(o: nat, inc: nat, L: nat)
    requires o < L
    ensures Slot(o, inc, 0, L) == o
  {
    DivModUnique(o, L, 0, o);
  }

  lemma WrittenNone<T>(cells: seq<T>, L: nat, o: nat, inc: nat, samples: seq<T>)
    requires 0 < L <= |cells| && |samples| == 0
    ensures Written(cells, L, o, inc, samples) == cells
  {
  }

  lemma WrittenOneMore<T>(cells: seq<T>, L: nat, o: nat, inc: nat, samples: seq<T>, k: nat)
    requires 0 < L <= |cells| && k < |samples|
    ensures Written(cells, L, o, inc, samples[..k + 1])
         == Written(cells, L, o, inc, samples[..k])[Slot(o, inc, k, L) := samples[k]]
  {
    assert samples[..k + 1][..k] == samples[..k];
  }

  lemma {:induction false} WrittenAppend<T>(cells: seq<T>, L: nat, o: nat, inc: nat, a: seq<T>, b: seq<T>)
    requires 0 < L <= |cells|
    ensures Written(cells, L, o, inc, a + b)
         == Written(Written(cells, L, o, inc, a), L, Slot(o, inc, |a|, L), inc, b)
  {
    if |b| == 0 {
      assert a + b == a;
    } else {
      var k := |b| - 1;
      WrittenAppend(cells, L, o, inc, a, b[..k]);
      assert (a + b)[..|a| + k] == a + b[..k];
      SlotAdd(o, inc, |a|, k, L);
    }
  }

  /** The offset that a call hands back for the next one. */
  function NextOffset(o: nat, inc: nat, n: nat, L: nat): (next: uint16)
    requires L > 0
    ensures next < L
    ensures L <= 0x1_0000 ==> next == Slot(o, inc, n, L)
  {
    ShortOffset(Slot(o, inc, n, L));
    TruncatedOffset(Slot(o, inc, n, L));
    ToUint16(Slot(o, inc, n, L))
  }

  lemma TruncatedOffset(offset: nat)
    ensures ToUint16(offset) <= offset
  {
  }

  /** Writing a block in two calls has the effect of one, as long as the offset between them fits 16 bits. */
  lemma SplitBlock<T>(cells: seq<T>, L: nat, o: nat, inc: nat, a: seq<T>, b: seq<T>)
    requires 0 < L <= |cells|
    requires Slot(o, inc, |a|, L) < 0x1_0000
    ensures Written(cells, L, o, inc, a + b)
         == Written(Written(cells, L, o, inc, a), L, NextOffset(o, inc, |a|, L), inc, b)
  {
    WrittenAppend(cells, L, o, inc, a, b);
    ShortOffset(Slot(o, inc, |a|, L));
    hide Slot, ToUint16, Written;
  }

  /** A cell that no later sample falls on keeps the last value written to it. */
  lemma {:induction false} LastWriter<T>(cells: seq<T>, L: nat, o: nat, inc: nat, samples: seq<T>, k: nat)
    requires 0 < L <= |cells| && k < |samples|
    requires forall j :: k < j < |samples| ==> Slot(o, inc, j, L) != Slot(o, inc, k, L)
    ensures Written(cells, L, o, inc, samples)[Slot(o, inc, k, L)] == samples[k]
  {
    if k < |samples| - 1 {
      LastWriter(cells, L, o, inc, samples[..|samples| - 1], k);
    }
  }

  /** A cell that no sample falls on is unchanged. */
  lemma {:induction false} Untouched<T>(cells: seq<T>, L: nat, o: nat, inc: nat, samples: seq<T>, c: nat)
    requires 0 < L <= |cells| && c < |cells|
    requires forall j :: 0 <= j < |samples| ==> Slot(o, inc, j, L) != c
    ensures Written(cells, L, o, inc, samples)[c] == cells[c]
  {
    if |samples| > 0 {
      Untouched(cells, L, o, inc, samples[..|samples| - 1], c);
    }
  }

  // ----- Delay lines: any number of blocks, one after the other

  function Flatten<T>(blocks: seq<seq<T>>): seq<T>
  {
    if |blocks| == 0 then [] else Flatten(blocks[..|blocks| - 1]) + blocks[|blocks| - 1]
  }

  datatype Line<T> = Line(cells: seq<T>, offset: uint16)

  /** A sequence of block writes, each starting at the 16-bit offset that the one before it handed back. */
  function WriteBlocks<T>(cells: seq<T>, L: nat, o: uint16, inc: nat, blocks: seq<seq<T>>): (r: Line<T>)
    requires 0 < L <= |cells| && o < L
    ensures |r.cells| == |cells| && r.offset < L
  {
    if |blocks| == 0 then Line(cells, o)
    else
      var before := WriteBlocks(cells, L, o, inc, blocks[..|blocks| - 1]);
      var block := blocks[|blocks| - 1];
      Line(Written(before.cells, L, before.offset, inc, block), NextOffset(before.offset, inc, |block|, L))
  }

  /**
   However the input is cut into blocks, the buffer and the offset are those of one long write, for
   buffers whose offsets fit 16 bits.
   */
  lemma {:induction false} BlocksAreOneWrite<T>(cells: seq<T>, L: nat, o: uint16, inc: nat, blocks: seq<seq<T>>)
    requires 0 < L <= |cells| && o < L <= 0x1_0000
    ensures WriteBlocks(cells, L, o, inc, blocks)
         == Line(Written(cells, L, o, inc, Flatten(blocks)), Slot(o, inc, |Flatten(blocks)|, L))
  {
    if |blocks| == 0 {
      FirstSlot(o, inc, L);
    } else {
      var front, block := blocks[..|blocks| - 1], blocks[|blocks| - 1];
      BlocksAreOneWrite(cells, L, o, inc, front);
      WrittenAppend(cells, L, o, inc, Flatten(front), block);
      SlotAdd(o, inc, |Flatten(front)|, |block|, L);
    }
  }

  /**
   The offset is passed on through 16 bits, so a buffer of more than 2^16 cells does not work as a
   delay line: both the offset and the contents are right after every sequence of blocks exactly
   when the buffer is no longer than that.
   */
  lemma BlocksAreOneWriteExactlyWhen(cells: seq<int>, L: nat, o: uint16)
    requires 0 < L <= |cells| && o < L
    ensures (forall blocks: seq<seq<int>> :: WriteBlocks(cells, L, o, 1, blocks).offset == (o + |Flatten(blocks)|) % L)
      <==> L <= 0x1_0000
    ensures (forall blocks: seq<seq<int>> ::
              WriteBlocks(cells, L, o, 1, blocks).cells == Written(cells, L, o, 1, Flatten(blocks)))
      <==> L <= 0x1_0000
  {
    hide Written, WriteBlocks, Flatten;
    if L <= 0x1_0000 {
      forall blocks: seq<seq<int>>
        ensures WriteBlocks(cells, L, o, 1, blocks).offset == (o + |Flatten(blocks)|) % L
        ensures WriteBlocks(cells, L, o, 1, blocks).cells == Written(cells, L, o, 1, Flatten(blocks))
      {
        BlocksAreOneWrite(cells, L, o, 1, blocks);
        UnitSlot(o, |Flatten(blocks)|, L);
      }
    } else {
      var first := seq(0x1_0000 - o, _ => 0);
      LongBufferLosesOffset(cells, L, o, first);
      var x := cells[0x1_0000] + 1;
      LongBufferLosesSample(cells, L, o, first, x);
      var one, two := [first], [first, [x]];
      assert WriteBlocks(cells, L, o, 1, one).offset != (o + |Flatten(one)|) % L;
      assert WriteBlocks(cells, L, o, 1, two).cells != Written(cells, L, o, 1, Flatten(two));
    }
  }

  /** A block that ends at cell 2^16 hands back offset 0. */
  lemma LongBufferLosesOffset<T>(cells: seq<T>, L: nat, o: uint16, first: seq<T>)
    requires 0x1_0000 < L <= |cells| && |first| == 0x1_0000 - o
    ensures Flatten([first]) == first
    ensures WriteBlocks(cells, L, o, 1, [first]) == Line(Written(cells, L, o, 1, first), 0)
    ensures (o + |first|) % L == 0x1_0000
  {
    hide Written;
    assert [first][..0] == [];
    assert Flatten([first]) == Flatten([]) + first;
    UnitSlot(o, |first|, L);
    DivModUnique(0x1_0000, L, 0, 0x1_0000);
    assert WriteBlocks(cells, L, o, 1, [first][..0]) == Line(cells, o);
  }

  /** So the sample that belongs in cell 2^16 goes to cell 0. */
  lemma LongBufferLosesSample<T>(cells: seq<T>, L: nat, o: uint16, first: seq<T>, x: T)
    requires 0x1_0000 < L <= |cells| && |first| == 0x1_0000 - o
    requires x != cells[0x1_0000]
    ensures WriteBlocks(cells, L, o, 1, [first, [x]]).cells != Written(cells, L, o, 1, Flatten([first, [x]]))
  {
    LongBufferLosesOffset(cells, L, o, first);
    var blocks := [first, [x]];
    assert blocks[..1] == [first];
    assert Flatten(blocks) == first + [x];
    var filled := Written(cells, L, o, 1, first);
    forall j | 0 <= j < |first|
      ensures Slot(o, 1, j, L) != 0x1_0000
    {
      UnitSlot(o, j, L);
      DivModUnique(o + j, L, 0, o + j);
    }
    Untouched(cells, L, o, 1, first, 0x1_0000);
    assert WriteBlocks(cells, L, o, 1, blocks).cells == Written(filled, L, 0, 1, [x]);
    FirstSlot(0, 1, L);
    WrittenOneMore(filled, L, 0, 1, [x], 0);
    assert Written(filled, L, 0, 1, [x])[0x1_0000] == filled[0x1_0000];
    UnitSlot(o, |first|, L);
    assert (first + [x])[..|first|] == first;
    assert Written(cells, L, o, 1, first + [x])[0x1_0000] == x;
  }

  lemma UnitSlot(o: nat, k: nat, L: nat)
    requires L > 0
    ensures Slot(o, 1, k, L) == (o + k) % L
  {
  }

  /** With unit increment two samples less than a buffer length apart use different cells. */
  lemma UnitSlotsDiffer(o: nat, L: nat, j: nat, k: nat)
    requires L > 0 && j < k < j + L
    ensures Slot(o, 1, j, L) != Slot(o, 1, k, L)
  {
    var p, q := (o + j) / L, (o + k) / L;
    if Slot(o, 1, j, L) == Slot(o, 1, k, L) {
      assert k - j == (q - p) * L;
      SmallMultiple(L, q - p);
    }
  }

  /** A sample among the last L has not been overwritten. */
  lemma RecentSample<T>(cells: seq<T>, L: nat, o: nat, all: seq<T>, k: nat)
    requires 0 < L <= |cells| && k < |all| <= k + L
    ensures Written(cells, L, o, 1, all)[Slot(o, 1, k, L)] == all[k]
  {
    forall i | k < i < |all|
      ensures Slot(o, 1, i, L) != Slot(o, 1, k, L)
    {
      UnitSlotsDiffer(o, L, k, i);
    }
    LastWriter(cells, L, o, 1, all, k);
  }

  /** Each of the last L samples is in its cell; the cells not reached are as before. */
  ghost predicate HoldsHistory<T>(before: seq<T>, after: seq<T>, L: nat, o: nat, all: seq<T>)
    requires 0 < L <= |before| == |after|
  {
    && (forall k: nat :: k < |all| <= k + L ==> after[Slot(o, 1, k, L)] == all[k])
    && (forall c: nat :: c < |before| && NotReached(L, o, 1, |all|, c) ==> after[c] == before[c])
  }

  lemma WrittenHoldsHistory<T>(cells: seq<T>, L: nat, o: nat, all: seq<T>)
    requires 0 < L <= |cells|
    ensures HoldsHistory(cells, Written(cells, L, o, 1, all), L, o, all)
  {
    forall k: nat | k < |all| <= k + L
      ensures Written(cells, L, o, 1, all)[Slot(o, 1, k, L)] == all[k]
    {
      RecentSample(cells, L, o, all, k);
    }
    forall c: nat | c < |cells| && NotReached(L, o, 1, |all|, c)
      ensures Written(cells, L, o, 1, all)[c] == cells[c]
    {
      Untouched(cells, L, o, 1, all, c);
    }
  }

  /**
   The delay line of at most 2^16 cells after any sequence of block writes of T samples in all: the
   offset is (o + T) mod L, sample k is in cell (o + k) mod L for each of the last L samples, and
   the cells not reached yet are untouched.
   */
  lemma DelayLineHistory<T>(cells: seq<T>, L: nat, o: uint16, blocks: seq<seq<T>>)
    requires 0 < L <= |cells| && o < L <= 0x1_0000
    ensures var line, all := WriteBlocks(cells, L, o, 1, blocks), Flatten(blocks);
      line.offset == (o + |all|) % L && HoldsHistory(cells, line.cells, L, o, all)
  {
    hide HoldsHistory;
    BlocksAreOneWrite(cells, L, o, 1, blocks);
    UnitSlot(o, |Flatten(blocks)|, L);
    WrittenHoldsHistory(cells, L, o, Flatten(blocks));
  }

  // ----- Reading

  /** The samples read from a buffer. */
  function ReadBack<T>(cells: seq<T>, L: nat, o: nat, inc: nat, n: nat): (s: seq<T>)
    requires 0 < L <= |cells|
    ensures |s| == n
    ensures forall k :: 0 <= k < n ==> s[k] == cells[(o + k * inc) % L]
  {
    seq(n, k requires 0 <= k < n => cells[Slot(o, inc, k, L)])
  }

  /** None of the n values after value k goes to its place. */
  ghost predicate IsLastTarget(at: int, step: int, length: int, n: nat, k: nat)
  {
    forall j: nat :: k < j < n ==> Target(at, step, length, j) != Target(at, step, length, k)
  }

  ghost predicate NotTargeted(at: int, step: int, length: int, n: nat, c: int)
  {
    forall k: nat :: k < n ==> Target(at, step, length, k) != c
  }

  /** The destination index for sample k: it returns to 0 only on hitting the end exactly. */
  function Target(at: int, step: int, length: int, k: nat): int
  {
    if k == 0 then at
    else
      var next := Target(at, step, length, k - 1) + step;
      if next == length then 0 else next
  }

  predicate TargetsFit(at: int, step: int, length: int, n: nat, size: nat)
  {
    forall k: nat :: k < n ==> 0 <= Target(at, step, length, k) < size
  }

  /** The destination after the values have been stored one after the other. */
  function Delivered<T>(dst: seq<T>, at: int, step: int, length: int, values: seq<T>): (r: seq<T>)
    requires TargetsFit(at, step, length, |values|, |dst|)
    ensures |r| == |dst|
  {
    if |values| == 0 then dst
    else
      var k := |values| - 1;
      Delivered(dst, at, step, length, values[..k])[Target(at, step, length, k) := values[k]]
  }

  /** `arm_circularRead_f32`, `_q15` and `_q7`; `at` is the distance of dst from dst_base. */
  method CircularRead<T>(circBuffer: array<T>, L: int, readOffset: int, bufferInc: int,
                         dst: array<T>, at: int, dstLength: int, dstInc: int, blockSize: uint32)
    returns (newOffset: int)
    requires 0 <= readOffset < L <= circBuffer.Length && L <= 0x4000_0000
    requires 0 <= bufferInc <= L
    requires TargetsFit(at, dstInc, dstLength, blockSize, dst.Length)
    requires dst != circBuffer
    modifies dst
    ensures dst[..] == Delivered(old(dst[..]), at, dstInc, dstLength,
                                 ReadBack(circBuffer[..], L, readOffset, bufferInc, blockSize))
    ensures forall k: nat :: k < blockSize && IsLastTarget(at, dstInc, dstLength, blockSize, k) ==>
              dst[Target(at, dstInc, dstLength, k)] == circBuffer[(readOffset + k * bufferInc) % L]
    ensures dstInc == 1 && 0 <= at < dstLength <= dst.Length ==>
              HoldsHistory(old(dst[..]), dst[..], dstLength, at,
                           ReadBack(circBuffer[..], L, readOffset, bufferInc, blockSize))
    ensures forall c: nat :: c < dst.Length && NotTargeted(at, dstInc, dstLength, blockSize, c) ==>
              dst[c] == old(dst[c])
    ensures newOffset == Slot(readOffset, bufferInc, blockSize, L)
  {
    var rOffset := readOffset;
    var d := at;
    var i: int := blockSize;
    ghost var all := ReadBack(circBuffer[..], L, readOffset, bufferInc, blockSize);
    ghost var k := 0;
    FirstSlot(readOffset, bufferInc, L);
    assert all[..0] == [];
    while i > 0
      invariant 0 <= i && k == blockSize - i
      invariant rOffset == Slot(readOffset, bufferInc, k, L)
      invariant d == Target(at, dstInc, dstLength, k)
      invariant dst[..] == Delivered(old(dst[..]), at, dstInc, dstLength, all[..k])
    {
      DeliveredOneMore(old(dst[..]), at, dstInc, dstLength, all, k);
      SlotStep(readOffset, bufferInc, k, L);
      dst[d] := circBuffer[rOffset];
      d := d + dstInc;
      if d == dstLength {
        d := 0;
      }
      OffsetFits(rOffset, bufferInc);
      rOffset := ToInt32(rOffset + bufferInc);
      if rOffset >= L {
        rOffset := rOffset - L;
      }
      i := i - 1;
      k := k + 1;
    }
    assert all[..k] == all;
    DeliveredCells(old(dst[..]), at, dstInc, dstLength, all);
    if dstInc == 1 && 0 <= at < dstLength <= dst.Length {
      WrappedReadHoldsLatest(old(dst[..]), at, dstLength, all);
    }
    newOffset := rOffset;
  }

  /** What a read leaves in each place. */
  lemma {:induction false} DeliveredCells<T>(dst: seq<T>, at: int, step: int, length: int, values: seq<T>)
    requires TargetsFit(at, step, length, |values|, |dst|)
    ensures forall k: nat :: k < |values| && IsLastTarget(at, step, length, |values|, k) ==>
              Delivered(dst, at, step, length, values)[Target(at, step, length, k)] == values[k]
    ensures forall c: nat :: c < |dst| && NotTargeted(at, step, length, |values|, c) ==>
              Delivered(dst, at, step, length, values)[c] == dst[c]
  {
    hide Target;
    if |values| > 0 {
      var n := |values| - 1;
      DeliveredCells(dst, at, step, length, values[..n]);
      forall k: nat | k < n && IsLastTarget(at, step, length, |values|, k)
        ensures Delivered(dst, at, step, length, values)[Target(at, step, length, k)] == values[k]
      {
        assert IsLastTarget(at, step, length, n, k);
        assert Target(at, step, length, n) != Target(at, step, length, k);
      }
      forall c: nat | c < |dst| && NotTargeted(at, step, length, |values|, c)
        ensures Delivered(dst, at, step, length, values)[c] == dst[c]
      {
        assert NotTargeted(at, step, length, n, c);
      }
    }
  }

  // ----- The walk through the destination

  /** Until the end is hit exactly, the destination is walked in equal steps. */
  lemma {:induction false} TargetBeforeEnd(at: int, step: int, length: int, k: nat)
    requires forall i :: 0 < i <= k ==> at + i * step != length
    ensures Target(at, step, length, k) == at + k * step
  {
    if k > 0 {
      TargetBeforeEnd(at, step, length, k - 1);
      assert at + (k - 1) * step + step == at + k * step;
    }
  }

  /** Steps that miss the end walk past it: the destination then does not wrap at all. */
  lemma TargetMissesEnd(at: int, step: int, length: int, k: nat)
    requires step > 0 && (length - at) % step != 0
    ensures Target(at, step, length, k) == at + k * step
  {
    forall i | 0 < i <= k
      ensures at + i * step != length
    {
      DivModUnique(i * step, step, i, 0);
    }
    TargetBeforeEnd(at, step, length, k);
  }

  /** Steps that hit it go on from the base, wherever they began. */
  lemma {:induction false} TargetRestarts(at: int, step: int, length: int, m: nat, k: nat)
    requires step > 0 && m > 0 && at + m * step == length
    ensures Target(at, step, length, m + k) == Target(0, step, length, k)
  {
    if k == 0 {
      forall i | 0 < i <= m - 1
        ensures at + i * step != length
      {
        FewerSteps(i, m, step);
      }
      TargetBeforeEnd(at, step, length, m - 1);
      OneMoreStep(m - 1, step);
    } else {
      TargetRestarts(at, step, length, m, k - 1);
    }
  }

  lemma FewerSteps(i: int, m: int, step: int)
    requires step > 0 && i < m
    ensures i * step < m * step
  {
    ScaleMonotone(step, i, m - 1);
    OneMoreStep(m - 1, step);
  }

  lemma OneMoreStep(k: int, step: int)
    ensures k * step + step == (k + 1) * step
  {
  }

  /** From base to end in whole steps it wraps around, like the cells of a circular buffer. */
  lemma TargetWraps(at: nat, step: nat, length: nat, k: nat)
    requires 0 < step && at < length && at % step == 0 && length % step == 0
    ensures Target(at, step, length, k) == (at + k * step) % length
  {
    TargetIsSlot(at, step, length, k);
  }

  lemma {:induction false} TargetIsSlot(at: nat, step: nat, length: nat, k: nat)
    requires 0 < step && at < length && at % step == 0 && length % step == 0
    ensures Target(at, step, length, k) == Slot(at, step, k, length)
    ensures Target(at, step, length, k) % step == 0
  {
    hide Slot;
    if k == 0 {
      FirstSlot(at, step, length);
    } else {
      TargetIsSlot(at, step, length, k - 1);
      OneStep(Target(at, step, length, k - 1), at, step, length, k - 1);
    }
  }

  lemma OneStep(t: nat, at: nat, step: nat, length: nat, k: nat)
    requires 0 < step && length % step == 0 && 0 < length
    requires t == Slot(at, step, k, length) && t % step == 0
    ensures var next := if t + step == length then 0 else t + step;
      next == Slot(at, step, k + 1, length) && next % step == 0
  {
    hide Slot;
    StaysAligned(t, step, length);
    SlotStep(at, step, k, length);
  }

  /** From an aligned place one more step hits the end or stays before it. */
  lemma StaysAligned(t: nat, step: nat, length: nat)
    requires 0 < step && t < length && t % step == 0 && length % step == 0
    ensures t + step <= length && (t + step) % step == 0
  {
    var a, b := t / step, length / step;
    assert t == a * step && length == b * step;
    NextMultiple(a, b, step);
    DivModUnique(t + step, step, a + 1, 0);
  }

  lemma NextMultiple(a: int, b: int, step: int)
    requires step > 0 && a * step < b * step
    ensures a * step + step == (a + 1) * step <= b * step
  {
    if a >= b {
      ScaleMonotone(step, b, a);
    } else {
      ScaleMonotone(step, a + 1, b);
    }
  }

  /**
   So a read into such a destination leaves in it what a block write of the same values would: with
   unit increment, the latest ones, each in its place.
   */
  lemma {:induction false} DeliveredAsWritten<T>(dst: seq<T>, at: nat, step: nat, length: nat, values: seq<T>)
    requires 0 < step && at < length <= |dst| && at % step == 0 && length % step == 0
    ensures TargetsFit(at, step, length, |values|, |dst|)
    ensures Delivered(dst, at, step, length, values) == Written(dst, length, at, step, values)
  {
    forall k: nat
      ensures Target(at, step, length, k) == Slot(at, step, k, length)
    {
      TargetIsSlot(at, step, length, k);
    }
    hide Target, Slot;
    if |values| > 0 {
      DeliveredAsWritten(dst, at, step, length, values[..|values| - 1]);
    }
  }

  lemma WrappedReadHoldsLatest<T>(dst: seq<T>, at: nat, length: nat, values: seq<T>)
    requires at < length <= |dst|
    ensures TargetsFit(at, 1, length, |values|, |dst|)
    ensures HoldsHistory(dst, Delivered(dst, at, 1, length, values), length, at, values)
  {
    DeliveredAsWritten(dst, at, 1, length, values);
    WrittenHoldsHistory(dst, length, at, values);
    hide Written, Delivered, HoldsHistory;
  }

  lemma DeliveredOneMore<T>(dst: seq<T>, at: int, step: int, length: int, values: seq<T>, k: nat)
    requires TargetsFit(at, step, length, |values|, |dst|) && k < |values|
    ensures Delivered(dst, at, step, length, values[..k + 1])
         == Delivered(dst, at, step, length, values[..k])[Target(at, step, length, k) := values[k]]
  {
    assert values[..k + 1][..k] == values[..k];
  }

  lemma {:induction false} UnitTargets(length: int, k: nat)
    requires k < length
    ensures Target(0, 1, length, k) == k
  {
    if k > 0 {
      UnitTargets(length, k - 1);
    }
  }

  /** With unit increment a destination that is long enough receives the values in order. */
  lemma {:induction false} DeliveredInOrder<T>(dst: seq<T>, length: int, values: seq<T>)
    requires |values| <= length && |values| <= |dst|
    ensures TargetsFit(0, 1, length, |values|, |dst|)
    ensures Delivered(dst, 0, 1, length, values) == values + dst[|values|..]
  {
    forall k: nat | k < |values|
      ensures Target(0, 1, length, k) == k
    {
      UnitTargets(length, k);
    }
    if |values| > 0 {
      DeliveredInOrder(dst, length, values[..|values| - 1]);
    }
  }

  /** Once filled, a delay line read from its offset gives its last L samples, oldest first. */
  lemma FullDelayLineReadsLatest<T>(cells: seq<T>, L: nat, o: uint16, blocks: seq<seq<T>>)
    requires 0 < L <= |cells| && o < L <= 0x1_0000
    requires |Flatten(blocks)| >= L
    ensures var line, all := WriteBlocks(cells, L, o, 1, blocks), Flatten(blocks);
      ReadBack(line.cells, L, line.offset, 1, L) == all[|all| - L..]
  {
    BlocksAreOneWrite(cells, L, o, 1, blocks);
    var line, all := WriteBlocks(cells, L, o, 1, blocks), Flatten(blocks);
    hide WriteBlocks, Flatten, Written;
    forall k | 0 <= k < L
      ensures line.cells[Slot(line.offset, 1, k, L)] == all[|all| - L + k]
    {
      RecentSample(cells, L, o, all, |all| - L + k);
      SlotAdd(o, 1, |all|, k, L);
      UnitSlot(o, |all| + k, L);
      UnitSlot(o, |all| - L + k, L);
      ModDrop(o + |all| + k - L, L, 1);
    }
  }

  // ----- Strides

  /** The number of samples after which a strided block returns to its first cell. */
  function Period(L: nat, inc: nat): nat
    requires L > 0
  {
    GcdPositive(L, inc);
    L / Gcd(L, inc)
  }

  lemma PeriodFactors(L: nat, inc: nat) returns (s: int, t: int, q: nat)
    requires L > 0
    ensures var g := Gcd(L, inc);
      && g > 0 && Period(L, inc) > 0
      && L == g * Period(L, inc) && inc == g * q
      && s * L + t * inc == g
  {
    var p;
    s, t, p, q := Bezout(L, inc);
    var g := Gcd(L, inc);
    assert L == p * g + 0;
    DivModUnique(L, g, p, 0);
    if p == 0 {
      assert false;
    }
  }

  /** Samples less than a period apart use different cells. */
  lemma SlotsDiffer(o: nat, inc: nat, L: nat, j: nat, k: nat)
    requires L > 0
    requires j < k < j + Period(L, inc)
    ensures Slot(o, inc, j, L) != Slot(o, inc, k, L)
  {
    if Slot(o, inc, j, L) == Slot(o, inc, k, L) {
      var s, t, q := PeriodFactors(L, inc);
      var m := (o + k * inc) / L - (o + j * inc) / L;
      SameSlot(o, inc, L, j, k);
      MultipleOfPeriod(L, inc, Gcd(L, inc), Period(L, inc), s, t, k - j, m);
      hide Slot, Period, Gcd;
      SmallMultiple(Period(L, inc), s * (k - j) + t * m);
    }
  }

  lemma SameSlot(o: nat, inc: nat, L: nat, j: nat, k: nat)
    requires L > 0 && Slot(o, inc, j, L) == Slot(o, inc, k, L)
    ensures (k - j) * inc == L * ((o + k * inc) / L - (o + j * inc) / L)
  {
    var a, b := (o + k * inc) / L, (o + j * inc) / L;
    assert o + k * inc == L * a + Slot(o, inc, k, L);
    assert o + j * inc == L * b + Slot(o, inc, j, L);
    assert (k - j) * inc == k * inc - j * inc;
    assert L * (a - b) == L * a - L * b;
  }

  lemma MultipleOfPeriod(L: nat, inc: nat, g: nat, p: nat, s: int, t: int, d: int, m: int)
    requires g > 0 && L == g * p && s * L + t * inc == g
    requires d * inc == L * m
    ensures d == p * (s * d + t * m)
  {
    assert d * g == L * (s * d + t * m) by {
      assert d * g == d * (s * L) + d * (t * inc);
      assert d * (t * inc) == t * (d * inc);
      assert t * (d * inc) == t * (L * m);
    }
    assert g * d == g * (p * (s * d + t * m));
    CancelFactor(g, d, p * (s * d + t * m));
  }

  /** A whole period later the block is back at its first cell. */
  lemma PeriodReturns(o: nat, inc: nat, L: nat)
    requires L > 0
    ensures Slot(o, inc, Period(L, inc), L) == Slot(o, inc, 0, L)
  {
    var s, t, q := PeriodFactors(L, inc);
    var g, p := Gcd(L, inc), Period(L, inc);
    assert p * inc == q * L by {
      assert p * (g * q) == q * (g * p);
    }
    ModDrop(o, L, q);
  }

  /** A block no longer than the period is read back as it was written. */
  lemma StridedRoundTrip<T>(cells: seq<T>, L: nat, o: nat, inc: nat, samples: seq<T>)
    requires 0 < L <= |cells|
    requires |samples| <= Period(L, inc)
    ensures ReadBack(Written(cells, L, o, inc, samples), L, o, inc, |samples|) == samples
  {
    forall k | 0 <= k < |samples|
      ensures Written(cells, L, o, inc, samples)[Slot(o, inc, k, L)] == samples[k]
    {
      forall j | k < j < |samples|
        ensures Slot(o, inc, j, L) != Slot(o, inc, k, L)
      {
        SlotsDiffer(o, inc, L, k, j);
      }
      LastWriter(cells, L, o, inc, samples, k);
    }
  }

  /** Once sample p has gone to a cell, ones written afterwards leave a one there. */
  lemma {:induction false} OnesStay(cells: seq<int>, L: nat, o: nat, inc: nat, samples: seq<int>, p: nat)
    requires 0 < L <= |cells| && p < |samples|
    requires forall k :: p <= k < |samples| ==> samples[k] == 1
    ensures Written(cells, L, o, inc, samples)[Slot(o, inc, p, L)] == 1
  {
    if p < |samples| - 1 {
      OnesStay(cells, L, o, inc, samples[..|samples| - 1], p);
    }
  }

  /**
   Every block of n samples comes back unchanged exactly when n is at most L / gcd(L, bufferInc).
   */
  lemma RoundTripExactlyWhen(cells: seq<int>, L: nat, o: nat, inc: nat, n: nat)
    requires 0 < L <= |cells|
    ensures (forall samples :: |samples| == n ==>
              ReadBack(Written(cells, L, o, inc, samples), L, o, inc, n) == samples)
      <==> n <= Period(L, inc)
  {
    if n <= Period(L, inc) {
      forall samples: seq<int> | |samples| == n
        ensures ReadBack(Written(cells, L, o, inc, samples), L, o, inc, n) == samples
      {
        StridedRoundTrip(cells, L, o, inc, samples);
      }
    } else {
      var p := Period(L, inc);
      var s, t, q := PeriodFactors(L, inc);
      var samples := seq(n, k => if k == 0 then 0 else 1);
      OnesStay(cells, L, o, inc, samples, p);
      PeriodReturns(o, inc, L);
      assert ReadBack(Written(cells, L, o, inc, samples), L, o, inc, n)[0] == 1;
    }
  }

  /** Write, then read into a fresh destination: the samples arrive in order. */
  lemma WriteThenRead<T>(cells: seq<T>, L: nat, o: nat, inc: nat, samples: seq<T>, dst: seq<T>, dstLength: int)
    requires 0 < L <= |cells|
    requires |samples| <= Period(L, inc) && |samples| <= dstLength && |samples| <= |dst|
    ensures TargetsFit(0, 1, dstLength, |samples|, |dst|)
    ensures Delivered(dst, 0, 1, dstLength, ReadBack(Written(cells, L, o, inc, samples), L, o, inc, |samples|))
         == samples + dst[|samples|..]
  {
    StridedRoundTrip(cells, L, o, inc, samples);
    DeliveredInOrder(dst, dstLength, samples);
  }
}
