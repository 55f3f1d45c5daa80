/** Where InitializeMemory places the UEFI region, on both architectures. */
module UefiRegion {
  import opened Common
  import opened MemoryInit

  /** The architectures differ in the width of a UINTN and in the highest address
      that may be allocated. */
  datatype Arch = ARM | AARCH64 {
    function Span(): nat { if ARM? then 0x1_0000_0000 else SPAN64 }
    function MaxAlloc(): nat { if ARM? then 0xFFFF_FFFF else 0xFFFF_FFFF_FFFF }

    /** The value as a UINTN. */
    function Word(v: int): (w: nat)
      ensures 0 <= v < Span() ==> w == v
    {
      if ARM? then v % 0x1_0000_0000 else v % SPAN64
    }
  }

  /** What the settings are: a system memory the code's first two assertions let
      through, and an image that does not run past the last address. */
  predicate Fits(arch: Arch, pcd: Pcd) {
    && pcd.memorySize != 0 && pcd.memoryBase < arch.MaxAlloc() && pcd.memoryBase + pcd.memorySize <= SPAN64
    && pcd.fdBase < arch.Span() && pcd.fdSize < 0x1_0000_0000 && pcd.fdBase + pcd.fdSize <= arch.Span()
  }

  /** The end of the system memory that may be allocated. */
  function Limit(arch: Arch, pcd: Pcd): nat {
    if pcd.memoryBase + pcd.memorySize > arch.MaxAlloc() then arch.MaxAlloc() + 1
    else pcd.memoryBase + pcd.memorySize
  }

  predicate ImageInside(arch: Arch, pcd: Pcd) {
    pcd.fdBase >= pcd.memoryBase && pcd.fdBase + pcd.fdSize <= Limit(arch, pcd)
  }

  /** The image ends with the address space, so its end is taken for zero. */
  predicate EndWraps(arch: Arch, pcd: Pcd) {
    pcd.fdBase + pcd.fdSize == arch.Span()
  }

  predicate RoomAbove(arch: Arch, pcd: Pcd, size: nat) {
    pcd.fdBase + pcd.fdSize + size <= Limit(arch, pcd)
  }

  predicate RoomBelow(pcd: Pcd, size: nat) {
    pcd.memoryBase + size <= pcd.fdBase
  }

  predicate InMemory(arch: Arch, pcd: Pcd, base: nat, size: nat) {
    pcd.memoryBase <= base && base + size <= Limit(arch, pcd)
  }

  predicate ClearOfImage(pcd: Pcd, base: nat, size: nat) {
    base >= pcd.fdBase + pcd.fdSize || base + size <= pcd.fdBase
  }

  predicate Between(low: nat, a: nat, high: nat) {
    low <= a < high
  }

  ghost predicate ImageMeetsMemory(arch: Arch, pcd: Pcd) {
    exists a :: Between(pcd.memoryBase, a, Limit(arch, pcd)) && Between(pcd.fdBase, a, pcd.fdBase + pcd.fdSize)
  }

  lemma MeetsExactly(arch: Arch, pcd: Pcd)
    requires Fits(arch, pcd)
    ensures ImageMeetsMemory(arch, pcd) <==>
      pcd.fdSize > 0 && pcd.fdBase < Limit(arch, pcd) && pcd.fdBase + pcd.fdSize > pcd.memoryBase
  {
    var low := if pcd.fdBase < pcd.memoryBase then pcd.memoryBase else pcd.fdBase;
    if low < Limit(arch, pcd) && low < pcd.fdBase + pcd.fdSize {
      assert Between(pcd.memoryBase, low, Limit(arch, pcd));
    }
  }

  datatype Placement = Placed(base: nat) | AssertFailed

  /** The top of system memory is a UINT64, the other values are UINTNs. */
  function Region(arch: Arch, pcd: Pcd, size: nat): Placement {
    Place(arch, pcd.memoryBase, SystemTop(arch, pcd), pcd.fdBase, arch.Word(pcd.fdBase + pcd.fdSize), size)
  }

  function Place(arch: Arch, base: nat, top: nat, fdBase: nat, fdTop: nat, size: nat): Placement {
    if fdBase >= base && fdTop <= top then
      if Sub64(top, fdTop) >= size then Placed(arch.Word(Sub64(top, size)))
      else if arch.Word(base + size) <= fdBase then Placed(arch.Word(fdBase - size))
      else AssertFailed
    else if (fdBase < base || fdBase >= top) && (fdTop <= base || fdTop > top) then Placed(arch.Word(Sub64(top, size)))
    else AssertFailed
  }

  function SystemTop(arch: Arch, pcd: Pcd): nat {
    var top := Add64(pcd.memoryBase, pcd.memorySize);
    if Sub64(top, 1) > arch.MaxAlloc() then arch.MaxAlloc() + 1 else top
  }

  lemma TopIsLimit(arch: Arch, pcd: Pcd)
    requires Fits(arch, pcd)
    ensures SystemTop(arch, pcd) == Limit(arch, pcd) <= arch.MaxAlloc() + 1 <= arch.Span()
    ensures pcd.memoryBase < Limit(arch, pcd)
  {
  }

  /** The 32-bit values of the settings are taken as they are; `size` is the
      size of the region. */
  method PlaceUefiRegion(arch: Arch, pcd: Pcd, size: nat) returns (r: Placement)
    requires Fits(arch, pcd) && size < 0x1_0000_0000
    ensures r == Region(arch, pcd, size)
  {
    var systemMemoryBase := arch.Word(pcd.memoryBase);
    var systemMemoryTop := Add64(systemMemoryBase, pcd.memorySize);
    if Sub64(systemMemoryTop, 1) > arch.MaxAlloc() {
      systemMemoryTop := arch.MaxAlloc() + 1;
    }
    var fdBase := arch.Word(pcd.fdBase);
    assert systemMemoryBase == pcd.memoryBase && systemMemoryTop == SystemTop(arch, pcd) && fdBase == pcd.fdBase;
    var fdTop := arch.Word(fdBase + pcd.fdSize);
    r := PlaceBetween(arch, systemMemoryBase, systemMemoryTop, fdBase, fdTop, size);
  }

  /** The branches over those values. */
  method PlaceBetween(arch: Arch, systemMemoryBase: nat, systemMemoryTop: nat, fdBase: nat, fdTop: nat, size: nat)
      returns (r: Placement)
    ensures r == Place(arch, systemMemoryBase, systemMemoryTop, fdBase, fdTop, size)
  {
    if fdBase >= systemMemoryBase && fdTop <= systemMemoryTop {
      if Sub64(systemMemoryTop, fdTop) >= size {
        return Placed(arch.Word(Sub64(systemMemoryTop, size)));
      }
      if !(arch.Word(systemMemoryBase + size) <= fdBase) { return AssertFailed; }
      return Placed(arch.Word(fdBase - size));
    }
    if !(fdBase < systemMemoryBase || fdBase >= systemMemoryTop) { return AssertFailed; }
    if !(fdTop <= systemMemoryBase || fdTop > systemMemoryTop) { return AssertFailed; }
    r := Placed(arch.Word(Sub64(systemMemoryTop, size)));
  }

  // --------------------------------------------- an image inside system memory

  /** The region is in system memory and clear of the image. */
  predicate Good(arch: Arch, pcd: Pcd, base: nat, size: nat) {
    InMemory(arch, pcd, base, size) && ClearOfImage(pcd, base, size)
  }

  predicate GoodIfPlaced(arch: Arch, pcd: Pcd, size: nat) {
    var r := Region(arch, pcd, size);
    r.Placed? ==> Good(arch, pcd, r.base, size)
  }

  lemma InsideWithoutWrap(arch: Arch, pcd: Pcd, size: nat)
    requires Fits(arch, pcd) && 0 < size < 0x1_0000_0000 && ImageInside(arch, pcd) && !EndWraps(arch, pcd)
    ensures var r := Region(arch, pcd, size);
      && (r.Placed? <==> RoomAbove(arch, pcd, size) || arch.Word(pcd.memoryBase + size) <= pcd.fdBase)
      && (r.Placed? ==> (Good(arch, pcd, r.base, size) <==> RoomAbove(arch, pcd, size) || RoomBelow(pcd, size)))
  {
    TopIsLimit(arch, pcd);
  }

  lemma InsideAtTheEnd(arch: Arch, pcd: Pcd, size: nat)
    requires Fits(arch, pcd) && 0 < size < 0x1_0000_0000 && ImageInside(arch, pcd) && EndWraps(arch, pcd)
    ensures var r := Region(arch, pcd, size);
      r.Placed? && r.base + size == arch.Span() && (pcd.fdSize > 0 ==> !Good(arch, pcd, r.base, size))
  {
    TopIsLimit(arch, pcd);
  }

  /** A region placed beside an image inside system memory is in memory and clear
      of the image, except in two cases: the image ends with the address space,
      or the sum tested for room below the image wraps and there is none above. */
  lemma GoodIfPlacedExactly(arch: Arch, pcd: Pcd, size: nat)
    requires Fits(arch, pcd) && 0 < size < 0x1_0000_0000 && ImageInside(arch, pcd)
    ensures GoodIfPlaced(arch, pcd, size) <==>
      !EndWraps(arch, pcd) && (pcd.memoryBase + size < arch.Span() || RoomAbove(arch, pcd, size))
  {
    TopIsLimit(arch, pcd);
    if EndWraps(arch, pcd) { InsideAtTheEnd(arch, pcd, size); } else { InsideWithoutWrap(arch, pcd, size); }
  }

  /** Where nothing wraps: at the end of memory if there is room above the image,
      else right below the image if there is room there, else the assertion. */
  lemma RegionExactly(arch: Arch, pcd: Pcd, size: nat)
    requires Fits(arch, pcd) && 0 < size < 0x1_0000_0000 && ImageInside(arch, pcd)
    requires !EndWraps(arch, pcd) && pcd.memoryBase + size < arch.Span()
    ensures Region(arch, pcd, size) ==
      if pcd.fdBase + pcd.fdSize + size <= Limit(arch, pcd) then Placed(Limit(arch, pcd) - size)
      else if pcd.memoryBase + size <= pcd.fdBase then Placed(pcd.fdBase - size)
      else AssertFailed
  {
    TopIsLimit(arch, pcd);
  }

  /** Memory past the last address that may be allocated, 48 bits on AArch64 and
      32 on ARM, is not used. */
  lemma MemoryIsCapped()
    ensures Region(AARCH64, Pcd(0x8000_0000, 0x1_0000_0000_0000, 0x8000_0000, 0x10_0000), 0x800_0000)
         == Placed(0xFFFF_F800_0000)
    ensures Region(ARM, Pcd(0x8000_0000, 0x1_0000_0000, 0x8000_0000, 0x10_0000), 0x800_0000) == Placed(0xF800_0000)
  {
  }

  /** So on AArch64 the placement does what it promises: there is one exactly when
      there is room, and it is always good. */
  lemma PlacedOnAArch64(pcd: Pcd, size: nat)
    requires Fits(AARCH64, pcd) && 0 < size < 0x1_0000_0000 && ImageInside(AARCH64, pcd)
    ensures Region(AARCH64, pcd, size).Placed? <==> RoomAbove(AARCH64, pcd, size) || RoomBelow(pcd, size)
    ensures GoodIfPlaced(AARCH64, pcd, size)
  {
    TopIsLimit(AARCH64, pcd);
    InsideWithoutWrap(AARCH64, pcd, size);
  }

  /** On ARM it does when the image ends below the last address and neither does
      a region at the base of memory run past it. */
  lemma PlacedOnArm(pcd: Pcd, size: nat)
    requires Fits(ARM, pcd) && 0 < size && ImageInside(ARM, pcd)
    requires pcd.fdBase + pcd.fdSize < 0x1_0000_0000 && pcd.memoryBase + size < 0x1_0000_0000
    ensures Region(ARM, pcd, size).Placed? <==> RoomAbove(ARM, pcd, size) || RoomBelow(pcd, size)
    ensures GoodIfPlaced(ARM, pcd, size)
  {
    InsideWithoutWrap(ARM, pcd, size);
  }

  /** The last gigabyte as memory, the image in its middle, a region as large as
      memory: there is no room, and the region is placed below system memory. */
  lemma ArmSumWraps()
    ensures var pcd := Pcd(0xC000_0000, 0x4000_0000, 0xE000_0000, 0x100_0000);
      && Fits(ARM, pcd) && ImageInside(ARM, pcd)
      && Region(ARM, pcd, 0x4000_0000) == Placed(0xA000_0000) && !GoodIfPlaced(ARM, pcd, 0x4000_0000)
  {
  }

  /** The image at the very end of that memory: a region of the default size is
      placed over it. */
  lemma ArmImageAtTheEnd()
    ensures var pcd := Pcd(0xC000_0000, 0x4000_0000, 0xFFF0_0000, 0x10_0000);
      && Fits(ARM, pcd) && ImageInside(ARM, pcd)
      && Region(ARM, pcd, 0x800_0000) == Placed(0xF800_0000) && !GoodIfPlaced(ARM, pcd, 0x800_0000)
  {
  }

  // ------------------------------------------------------- an image elsewhere

  /** With the image elsewhere the region ends at the top, and is inside memory
      exactly when it is not larger.  The assertions rule out an image that meets
      system memory, unless it encloses all of it or ends with the address space. */
  lemma ElsewhereExactly(arch: Arch, pcd: Pcd, size: nat)
    requires Fits(arch, pcd) && 0 < size < 0x1_0000_0000 && !ImageInside(arch, pcd)
    requires Region(arch, pcd, size).Placed?
    ensures var base := Region(arch, pcd, size).base;
      && (InMemory(arch, pcd, base, size) <==> size <= Limit(arch, pcd) - pcd.memoryBase)
      && (InMemory(arch, pcd, base, size) ==> base + size == Limit(arch, pcd))
    ensures ImageMeetsMemory(arch, pcd) <==>
      || (pcd.fdBase < pcd.memoryBase && pcd.fdBase + pcd.fdSize > Limit(arch, pcd))
      || (EndWraps(arch, pcd) && pcd.fdBase < Limit(arch, pcd))
  {
    TopIsLimit(arch, pcd);
    MeetsExactly(arch, pcd);
  }

  /** An image that encloses system memory passes the assertions. */
  lemma EnclosingImagePasses(arch: Arch)
    ensures var pcd := Pcd(0x8000_0000, 0x1000_0000, 0x7000_0000, 0x3000_0000);
      && Fits(arch, pcd) && !ImageInside(arch, pcd) && ImageMeetsMemory(arch, pcd)
      && Region(arch, pcd, 0x800_0000) == Placed(0x8800_0000)
  {
    MeetsExactly(arch, Pcd(0x8000_0000, 0x1000_0000, 0x7000_0000, 0x3000_0000));
  }

  // ------------------------------------------------------------- after the split

  /** A nonempty region placed beside an image inside system memory lies, after
      the split of a descriptor for exactly system memory, wholly inside one
      descriptor, and that descriptor does not hold the image. */
  lemma RegionHasAHome(hobs: seq<Hob>, i: nat, pcd: Pcd, arch: Arch, base: nat, size: nat) returns (j: nat)
    requires i < |hobs| && pcd.Sane() && pcd.fdSize > 0 && size > 0 && pcd.memorySize != 0
    requires hobs[i].Resource? && hobs[i].systemMemory
    requires hobs[i].start == pcd.memoryBase && hobs[i].length == pcd.memorySize
    requires ImageInside(arch, pcd) && Good(arch, pcd, base, size)
    ensures var r := Carved(hobs, i, pcd);
      && j < |r| && r[j].Resource? && r[j].systemMemory
      && r[j].start <= base && base + size <= r[j].start + r[j].length
      && (r[j].start + r[j].length <= pcd.fdBase || pcd.fdBase + pcd.fdSize <= r[j].start)
  {
    var r := Carved(hobs, i, pcd);
    if pcd.fdBase == pcd.memoryBase {
      j := i;
    } else if base + size <= pcd.fdBase {
      j := i;
      assert r[i] == hobs[i].(length := Sub64(pcd.fdBase, hobs[i].start));
    } else {
      j := |hobs| + 1;
    }
  }
}
