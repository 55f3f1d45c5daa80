/** Moving the temporary RAM: the stack goes below the heap. */
module TempRam {
  import opened Common

  /** CPU_STACK_ALIGNMENT is 8 on ARM and 16 on AArch64. */
  predicate StackAlignment(alignment: nat) {
    alignment == 8 || alignment == 16
  }

  /** ALIGN_VALUE: for a power of two, the mask takes the remainder. */
  function AlignValue(value: nat, alignment: nat): nat
    requires alignment > 0
  {
    value + (alignment - value) % alignment
  }

  lemma Align8(value: nat, multiple: nat)
    ensures value <= AlignValue(value, 8) < value + 8 && AlignValue(value, 8) % 8 == 0
    ensures multiple % 8 == 0 && multiple >= value ==> multiple >= AlignValue(value, 8)
  {
    assert value + (8 - value) % 8 == 8 - 8 * ((8 - value) / 8);
  }

  lemma Align16(value: nat, multiple: nat)
    ensures value <= AlignValue(value, 16) < value + 16 && AlignValue(value, 16) % 16 == 0
    ensures multiple % 16 == 0 && multiple >= value ==> multiple >= AlignValue(value, 16)
  {
    assert value + (16 - value) % 16 == 16 - 16 * ((16 - value) / 16);
  }

  /** It is the least multiple of the alignment that is not below the value. */
  lemma AlignIsLeast(value: nat, alignment: nat, multiple: nat)
    requires StackAlignment(alignment)
    ensures value <= AlignValue(value, alignment) < value + alignment
    ensures AlignValue(value, alignment) % alignment == 0
    ensures multiple % alignment == 0 && multiple >= value ==> multiple >= AlignValue(value, alignment)
  {
    if alignment == 8 { Align8(value, multiple); } else { Align16(value, multiple); }
  }

  /** The share of the temporary RAM that is heap. */
  function HeapSize(copySize: nat, alignment: nat): nat
    requires alignment > 0
  {
    AlignValue(copySize / 2, alignment)
  }

  /** It is the least multiple of the alignment that is not below half. */
  lemma HeapIsLeast(copySize: nat, alignment: nat, multiple: nat)
    requires StackAlignment(alignment)
    ensures copySize - 1 <= 2 * HeapSize(copySize, alignment) && HeapSize(copySize, alignment) % alignment == 0
    ensures multiple % alignment == 0 && 2 * multiple >= copySize - 1 ==> multiple >= HeapSize(copySize, alignment)
  {
    AlignIsLeast(copySize / 2, alignment, multiple);
  }

  /** The aligned half fits exactly when the whole is at least one alignment
      unit, or too small to have a half. */
  lemma HalfFitsExactly(copySize: nat, alignment: nat)
    requires StackAlignment(alignment)
    ensures HeapSize(copySize, alignment) <= copySize <==> copySize >= alignment || copySize <= 1
  {
    if alignment == 8 { Align8(copySize / 2, 8); } else { Align16(copySize / 2, 16); }
  }

  function MoveStack(before: seq<Byte>, temporary: nat, permanent: nat, copySize: nat, heap: nat): (after: seq<Byte>)
    requires heap <= copySize && temporary + copySize <= |before| && permanent + copySize <= |before|
    ensures |after| == |before|
  {
    Overwrite(before, permanent, before[temporary + heap..temporary + copySize])
  }

  /** Memory after both copies: the old stack goes to the base of the permanent
      memory, then the old heap above it. */
  function Move(before: seq<Byte>, temporary: nat, permanent: nat, copySize: nat, heap: nat): (after: seq<Byte>)
    requires heap <= copySize && temporary + copySize <= |before| && permanent + copySize <= |before|
    ensures |after| == |before|
  {
    var stackMoved := MoveStack(before, temporary, permanent, copySize, heap);
    Overwrite(stackMoved, permanent + copySize - heap, stackMoved[temporary..temporary + heap])
  }

  /** Every byte of the old stack is found at its address plus the delta. */
  ghost predicate StackFollows(before: seq<Byte>, after: seq<Byte>, base: nat, size: nat, delta: int)
    requires base + size <= |before| && 0 <= base + delta && base + delta + size <= |after|
  {
    forall a | base <= a < base + size :: after[a + delta] == before[a]
  }

  /** Every byte of the old heap keeps its place in the heap. */
  ghost predicate HeapFollows(before: seq<Byte>, after: seq<Byte>, oldHeap: nat, newHeap: nat, size: nat)
    requires oldHeap + size <= |before| && newHeap + size <= |after|
  {
    forall a | oldHeap <= a < oldHeap + size :: after[newHeap + (a - oldHeap)] == before[a]
  }

  /** The new stack does not run into the old heap. */
  predicate HeapSpared(temporary: nat, permanent: nat, copySize: nat, heap: nat) {
    temporary + heap <= permanent || permanent + copySize <= temporary + heap || heap == 0 || copySize <= heap
  }

  lemma StackMovedAt(before: seq<Byte>, temporary: nat, permanent: nat, copySize: nat, heap: nat, a: nat)
    requires heap <= copySize && temporary + copySize <= |before| && permanent + copySize <= |before|
    requires a < |before|
    ensures MoveStack(before, temporary, permanent, copySize, heap)[a]
         == if permanent <= a < permanent + copySize - heap then before[temporary + heap + (a - permanent)]
            else before[a]
  {
    OverwriteAt(before, permanent, before[temporary + heap..temporary + copySize], a);
  }

  lemma MovedAt(before: seq<Byte>, temporary: nat, permanent: nat, copySize: nat, heap: nat, a: nat)
    requires heap <= copySize && temporary + copySize <= |before| && permanent + copySize <= |before|
    requires a < |before|
    ensures var after, newHeap := Move(before, temporary, permanent, copySize, heap), permanent + copySize - heap;
      after[a] == if permanent <= a < newHeap then before[temporary + heap + (a - permanent)]
                  else if newHeap <= a < newHeap + heap then
                    var b := temporary + (a - newHeap);
                    if permanent <= b < newHeap then before[temporary + heap + (b - permanent)] else before[b]
                  else before[a]
  {
    var m := MoveStack(before, temporary, permanent, copySize, heap);
    var newHeap := permanent + copySize - heap;
    OverwriteAt(m, newHeap, m[temporary..temporary + heap], a);
    StackMovedAt(before, temporary, permanent, copySize, heap, a);
    if newHeap <= a < newHeap + heap {
      StackMovedAt(before, temporary, permanent, copySize, heap, temporary + (a - newHeap));
    }
  }

  lemma StackMoves(before: seq<Byte>, temporary: nat, permanent: nat, copySize: nat, heap: nat)
    requires heap <= copySize && temporary + copySize <= |before| && permanent + copySize <= |before|
    ensures StackFollows(before, Move(before, temporary, permanent, copySize, heap),
                         temporary + heap, copySize - heap, permanent - (temporary + heap))
  {
    var delta := permanent - (temporary + heap);
    forall a | temporary + heap <= a < temporary + copySize
      ensures Move(before, temporary, permanent, copySize, heap)[a + delta] == before[a]
    {
      MovedAt(before, temporary, permanent, copySize, heap, a + delta);
    }
  }

  ghost predicate HeapKept(before: seq<Byte>, temporary: nat, permanent: nat, copySize: nat, heap: nat)
    requires heap <= copySize && temporary + copySize <= |before| && permanent + copySize <= |before|
  {
    HeapFollows(before, Move(before, temporary, permanent, copySize, heap),
                temporary, permanent + copySize - heap, heap)
  }

  /** The heap is kept, whatever it holds. */
  ghost predicate HeapAlwaysFollows(size: nat, temporary: nat, permanent: nat, copySize: nat, heap: nat)
    requires heap <= copySize && temporary + copySize <= size && permanent + copySize <= size
  {
    forall before: seq<Byte> :: |before| == size ==> HeapKept(before, temporary, permanent, copySize, heap)
  }

  /** It is, exactly when the new stack does not run into the old heap; two
      regions without a common byte are one case. */
  lemma HeapFollowsExactly(size: nat, temporary: nat, permanent: nat, copySize: nat, heap: nat)
    requires heap <= copySize && temporary + copySize <= size && permanent + copySize <= size
    ensures HeapSpared(temporary, permanent, copySize, heap)
       <==> HeapAlwaysFollows(size, temporary, permanent, copySize, heap)
  {
    if HeapSpared(temporary, permanent, copySize, heap) {
      forall before: seq<Byte> | |before| == size ensures HeapKept(before, temporary, permanent, copySize, heap) {
        HeapMoves(before, temporary, permanent, copySize, heap);
      }
    } else {
      var before := HeapLost(size, temporary, permanent, copySize, heap);
    }
  }

  /** A memory in which the byte that is overwritten first tells. */
  lemma HeapLost(size: nat, temporary: nat, permanent: nat, copySize: nat, heap: nat) returns (before: seq<Byte>)
    requires heap <= copySize && temporary + copySize <= size && permanent + copySize <= size
    requires !HeapSpared(temporary, permanent, copySize, heap)
    ensures |before| == size && !HeapKept(before, temporary, permanent, copySize, heap)
  {
    var lost := if permanent < temporary then temporary else permanent;
    before := seq(size, i => if i == lost then 1 else 0);
    var a := permanent + copySize - heap + (lost - temporary);
    MovedAt(before, temporary, permanent, copySize, heap, a);
    assert before[lost] == 1;
  }

  lemma HeapMoves(before: seq<Byte>, temporary: nat, permanent: nat, copySize: nat, heap: nat)
    requires heap <= copySize && temporary + copySize <= |before| && permanent + copySize <= |before|
    requires HeapSpared(temporary, permanent, copySize, heap)
    ensures HeapKept(before, temporary, permanent, copySize, heap)
  {
    var newHeap := permanent + copySize - heap;
    forall a | temporary <= a < temporary + heap
      ensures Move(before, temporary, permanent, copySize, heap)[newHeap + (a - temporary)] == before[a]
    {
      MovedAt(before, temporary, permanent, copySize, heap, newHeap + (a - temporary));
    }
  }

  /** Nothing outside a range has changed. */
  ghost predicate Untouched(before: seq<Byte>, after: seq<Byte>, base: nat, size: nat)
    requires |after| == |before|
  {
    forall a | 0 <= a < |before| && !(base <= a < base + size) :: after[a] == before[a]
  }

  lemma RestStays(before: seq<Byte>, temporary: nat, permanent: nat, copySize: nat, heap: nat)
    requires heap <= copySize && temporary + copySize <= |before| && permanent + copySize <= |before|
    ensures Untouched(before, Move(before, temporary, permanent, copySize, heap), permanent, copySize)
  {
    forall a | 0 <= a < |before| && !(permanent <= a < permanent + copySize)
      ensures Move(before, temporary, permanent, copySize, heap)[a] == before[a]
    {
      MovedAt(before, temporary, permanent, copySize, heap, a);
    }
  }

  /** What the migration promises about memory and the stack delta. */
  ghost predicate Migrated(before: seq<Byte>, after: seq<Byte>,
                           temporary: nat, permanent: nat, copySize: nat, heap: nat, delta: int)
    requires heap <= copySize && temporary + copySize <= |before| && permanent + copySize <= |before|
    requires |after| == |before|
  {
    && delta == permanent - (temporary + heap)
    && StackFollows(before, after, temporary + heap, copySize - heap, delta)
    && (HeapSpared(temporary, permanent, copySize, heap) ==>
          HeapFollows(before, after, temporary, permanent + copySize - heap, heap))
    && Untouched(before, after, permanent, copySize)
  }

  lemma Migrates(before: seq<Byte>, after: seq<Byte>,
                 temporary: nat, permanent: nat, copySize: nat, heap: nat, delta: int)
    requires heap <= copySize && temporary + copySize <= |before| && permanent + copySize <= |before|
    requires after == Move(before, temporary, permanent, copySize, heap) && delta == permanent - (temporary + heap)
    ensures Migrated(before, after, temporary, permanent, copySize, heap, delta)
  {
    StackMoves(before, temporary, permanent, copySize, heap);
    if HeapSpared(temporary, permanent, copySize, heap) {
      HeapMoves(before, temporary, permanent, copySize, heap);
    }
    RestStays(before, temporary, permanent, copySize, heap);
  }

  /** Copies both halves; the result is what is added to the stack pointer. */
  method MoveHalves(memory: array<Byte>, temporary: nat, permanent: nat, copySize: nat, heapSize: nat)
      returns (delta: int)
    requires heapSize <= copySize
    requires temporary + copySize <= memory.Length && permanent + copySize <= memory.Length
    modifies memory
    ensures memory[..] == Move(old(memory[..]), temporary, permanent, copySize, heapSize)
    ensures delta == permanent - (temporary + heapSize)
  {
    ghost var before := memory[..];
    var oldHeap, newHeap := temporary, permanent + (copySize - heapSize);
    var oldStack, newStack := temporary + heapSize, permanent;
    var stack := memory[oldStack..oldStack + (copySize - heapSize)];
    assert stack == before[temporary + heapSize..temporary + copySize];
    CopyMem(memory, newStack, stack);
    ghost var between := memory[..];
    assert between == MoveStack(before, temporary, permanent, copySize, heapSize);
    var heap := memory[oldHeap..oldHeap + heapSize];
    assert heap == between[temporary..temporary + heapSize];
    CopyMem(memory, newHeap, heap);
    delta := newStack - oldStack;
  }

  /** Moves stack and heap to permanent memory.  (A copy size between 2 and the
      alignment has no heap that fits.) */
  method TemporaryRamSupport(memory: array<Byte>, temporary: nat, permanent: nat, copySize: nat, alignment: nat)
      returns (delta: int)
    requires StackAlignment(alignment) && (copySize >= alignment || copySize <= 1)
    requires temporary + copySize <= memory.Length && permanent + copySize <= memory.Length
    modifies memory
    ensures HeapSize(copySize, alignment) <= copySize
    ensures memory[..] == Move(old(memory[..]), temporary, permanent, copySize, HeapSize(copySize, alignment))
    ensures Migrated(old(memory[..]), memory[..], temporary, permanent, copySize, HeapSize(copySize, alignment), delta)
  {
    HalfFitsExactly(copySize, alignment);
    ghost var before := memory[..];
    var heapSize := HeapSize(copySize, alignment);
    delta := MoveHalves(memory, temporary, permanent, copySize, heapSize);
    Migrates(before, memory[..], temporary, permanent, copySize, heapSize, delta);
  }

  /** What PrimaryMain tells the PEI core about the temporary RAM. */
  datatype HandOff = HandOff(ramBase: nat, ramSize: nat, heapBase: nat, heapSize: nat, stackBase: nat, stackSize: nat)

  /** The hand-off's heap and stack partition the RAM above the PPI list, and
      their border is the one the migration uses when it is given that RAM. */
  method PrimaryMain(stackRegionBase: nat, stackRegionSize: nat, ppiListBytes: nat, alignment: nat) returns (h: HandOff)
    requires StackAlignment(alignment) && AlignValue(ppiListBytes, alignment) <= stackRegionSize
    requires var ram := stackRegionSize - AlignValue(ppiListBytes, alignment); HeapSize(ram, alignment) <= ram
    ensures stackRegionBase + ppiListBytes <= h.ramBase < stackRegionBase + ppiListBytes + alignment
    ensures h.ramBase + h.ramSize == stackRegionBase + stackRegionSize
    ensures h.heapBase == h.ramBase && h.heapSize == HeapSize(h.ramSize, alignment)
    ensures h.stackBase == h.heapBase + h.heapSize && h.stackBase + h.stackSize == h.ramBase + h.ramSize
  {
    AlignIsLeast(ppiListBytes, alignment, 0);
    ghost var ram := stackRegionSize - AlignValue(ppiListBytes, alignment);
    assert HeapSize(ram, alignment) <= ram;
    var ppiListSize := AlignValue(ppiListBytes, alignment);
    var ramBase := stackRegionBase + ppiListSize;
    var ramSize := stackRegionSize - ppiListSize;
    var heapSize := AlignValue(ramSize / 2, alignment);
    assert ram == ramSize && heapSize == HeapSize(ram, alignment);
    var stackBase := ramBase + heapSize;
    h := HandOff(ramBase, ramSize, ramBase, heapSize, stackBase, (ramBase + ramSize) - stackBase);
  }
}
