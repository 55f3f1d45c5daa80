/** Placing the UEFI region, and carving the firmware image out of the system
    memory descriptors. */
module MemoryInit {
  import opened Common

  /** Resource descriptors, memory allocation records, and everything else. */
  datatype Hob =
    | Resource(systemMemory: bool, attributes: nat, start: nat, length: nat)
    | Allocation(base: nat, size: nat)
    | OtherHob

  /** The platform settings: system memory and the firmware device. */
  datatype Pcd = Pcd(memoryBase: nat, memorySize: nat, fdBase: nat, fdSize: nat) {
    function MemoryTop(): nat { Add64(memoryBase, memorySize) }
    function FdTop(): nat { Add64(fdBase, fdSize) }
    predicate Shadowed() { fdBase >= memoryBase && FdTop() <= MemoryTop() }

    /** Neither range runs past the end of the address space. */
    predicate Sane() { memoryBase + memorySize < SPAN64 && fdBase + fdSize < SPAN64 }
  }

  // present, initialised, write-combining, write-through, write-back, tested
  const MEMORY_ATTRIBUTES: nat := 0x1 + 0x2 + 0x4 + 0x800 + 0x1000 + 0x2000

  /** The test of the first scan. */
  predicate Declares(h: Hob, pcd: Pcd) {
    h.Resource? && h.systemMemory && pcd.memoryBase >= h.start && Add64(h.start, h.length) <= pcd.MemoryTop()
  }

  /** The test of the second scan. */
  predicate Holds(h: Hob, pcd: Pcd) {
    h.Resource? && h.systemMemory && pcd.fdBase >= h.start && pcd.FdTop() <= Add64(h.start, h.length)
  }

  function FirstIndex(hobs: seq<Hob>, test: Hob -> bool): (r: nat)
    ensures r <= |hobs| && (r < |hobs| ==> test(hobs[r]))
    ensures forall j | 0 <= j < r :: !test(hobs[j])
  {
    if hobs == [] || test(hobs[0]) then 0 else 1 + FirstIndex(hobs[1..], test)
  }

  function MainMemory(pcd: Pcd): Hob {
    Resource(true, MEMORY_ATTRIBUTES, pcd.memoryBase, pcd.memorySize)
  }

  /** The list after the first scan. */
  function Declared(hobs: seq<Hob>, pcd: Pcd): seq<Hob> {
    if FirstIndex(hobs, h => Declares(h, pcd)) < |hobs| then hobs else hobs + [MainMemory(pcd)]
  }

  function Firmware(h: Hob, pcd: Pcd): Hob
    requires h.Resource?
  {
    Resource(true, h.attributes, pcd.fdBase, pcd.fdSize)
  }

  /** The list after descriptor `i` has been split around the firmware. */
  function Carved(hobs: seq<Hob>, i: nat, pcd: Pcd): seq<Hob>
    requires i < |hobs| && hobs[i].Resource?
  {
    var h := hobs[i];
    var top := Add64(h.start, h.length);
    if pcd.fdBase == h.start then
      if pcd.MemoryTop() != pcd.FdTop() then
        hobs[i := h.(start := Add64(h.start, pcd.fdSize), length := Sub64(h.length, pcd.fdSize))] + [Firmware(h, pcd)]
      else hobs
    else
      hobs[i := h.(length := Sub64(pcd.fdBase, h.start))] + [Firmware(h, pcd)]
      + if pcd.FdTop() < top then [Resource(true, h.attributes, pcd.FdTop(), Sub64(top, pcd.FdTop()))] else []
  }

  /** The whole of MemoryPeim on the list; None when its final assertion fails. */
  function Result(hobs: seq<Hob>, pcd: Pcd): Option<seq<Hob>> {
    var d := Declared(hobs, pcd);
    var i := FirstIndex(d, h => Holds(h, pcd));
    if !pcd.Shadowed() then Some(d)
    else if i < |d| then Some(Carved(d, i, pcd) + [Allocation(pcd.fdBase, pcd.fdSize)])
    else None
  }

  /** The list MemoryPeim leaves, with or without that assertion. */
  function Final(hobs: seq<Hob>, pcd: Pcd): seq<Hob> {
    if Result(hobs, pcd).Some? then Result(hobs, pcd).value else Declared(hobs, pcd)
  }

  class HobList {
    var hobs: seq<Hob>

    method BuildResourceDescriptorHob(attributes: nat, start: nat, length: nat)
      modifies this
      ensures hobs == old(hobs) + [Resource(true, attributes, start, length)]
    {
      hobs := hobs + [Resource(true, attributes, start, length)];
    }

    method BuildMemoryAllocationHob(base: nat, size: nat)
      modifies this
      ensures hobs == old(hobs) + [Allocation(base, size)]
    {
      hobs := hobs + [Allocation(base, size)];
    }

    /** A walk over the list for the first descriptor that passes a test. */
    method Search(test: Hob -> bool) returns (found: bool, i: nat)
      ensures i == FirstIndex(hobs, test) && found == (i < |hobs|)
    {
      i := 0;
      while i < |hobs|
        invariant i <= |hobs| && FirstIndex(hobs, test) == i + FirstIndex(hobs[i..], test)
      {
        if test(hobs[i]) { return true, i; }
        assert hobs[i..][1..] == hobs[i + 1..];
        i := i + 1;
      }
      found := false;
    }

    /** Splits descriptor `i` in place, appending the new pieces. */
    method Split(i: nat, pcd: Pcd)
      requires i < |hobs| && hobs[i].Resource?
      modifies this
      ensures hobs == Carved(old(hobs), i, pcd)
    {
      var attributes := hobs[i].attributes;
      var resourceLength := hobs[i].length;
      var resourceTop := Add64(hobs[i].start, resourceLength);
      if pcd.fdBase == hobs[i].start {
        if pcd.MemoryTop() != pcd.FdTop() {
          BuildResourceDescriptorHob(attributes, pcd.fdBase, pcd.fdSize);
          var h := hobs[i];
          hobs := hobs[i := h.(start := Add64(h.start, pcd.fdSize), length := Sub64(h.length, pcd.fdSize))];
        }
      } else {
        BuildResourceDescriptorHob(attributes, pcd.fdBase, pcd.fdSize);
        var h := hobs[i];
        hobs := hobs[i := h.(length := Sub64(pcd.fdBase, h.start))];
        if pcd.FdTop() < Add64(hobs[i].start, resourceLength) {
          BuildResourceDescriptorHob(attributes, pcd.FdTop(), Sub64(resourceTop, pcd.FdTop()));
        }
      }
    }

    method MemoryPeim(pcd: Pcd) returns (assertHolds: bool)
      modifies this
      ensures assertHolds == Result(old(hobs), pcd).Some?
      ensures hobs == Final(old(hobs), pcd)
    {
      var found, i := Search(h => Declares(h, pcd));
      if !found {
        BuildResourceDescriptorHob(MEMORY_ATTRIBUTES, pcd.memoryBase, pcd.memorySize);
      }
      assert hobs == Declared(old(hobs), pcd);
      assertHolds := true;
      if pcd.fdBase >= pcd.memoryBase && pcd.FdTop() <= pcd.MemoryTop() {
        found, i := Search(h => Holds(h, pcd));
        if found {
          Split(i, pcd);
          BuildMemoryAllocationHob(pcd.fdBase, pcd.fdSize);
        }
        assertHolds := found;
      }
    }
  }
}
