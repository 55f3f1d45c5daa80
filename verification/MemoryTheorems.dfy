/** The carving conserves memory, and the UEFI region has a home. */
module MemoryTheorems {
  import opened Common
  import opened MemoryInit

  /** Counting: `attributes` restricts the count to descriptors carrying them. */
  predicate Counts(h: Hob, a: nat, attributes: Option<nat>) {
    && h.Resource? && h.systemMemory && h.start <= a < h.start + h.length
    && (attributes.Some? ==> h.attributes == attributes.value)
  }

  /** How many system memory descriptors contain the address. */
  function Cover(hobs: seq<Hob>, a: nat, attributes: Option<nat>): nat {
    if hobs == [] then 0
    else Cover(hobs[..|hobs| - 1], a, attributes) + if Counts(hobs[|hobs| - 1], a, attributes) then 1 else 0
  }

  function Bytes(h: Hob): nat {
    if h.Resource? && h.systemMemory then h.length else 0
  }

  function TotalLength(hobs: seq<Hob>): nat {
    if hobs == [] then 0 else TotalLength(hobs[..|hobs| - 1]) + Bytes(hobs[|hobs| - 1])
  }

  lemma CoverSnoc(hobs: seq<Hob>, h: Hob, a: nat, k: Option<nat>)
    ensures Cover(hobs + [h], a, k) == Cover(hobs, a, k) + if Counts(h, a, k) then 1 else 0
    ensures TotalLength(hobs + [h]) == TotalLength(hobs) + Bytes(h)
  {
    assert (hobs + [h])[..|hobs|] == hobs;
  }

  lemma {:induction false} CoverUpdate(hobs: seq<Hob>, i: nat, h: Hob, a: nat, k: Option<nat>)
    requires i < |hobs|
    ensures Cover(hobs[i := h], a, k) + (if Counts(hobs[i], a, k) then 1 else 0)
         == Cover(hobs, a, k) + (if Counts(h, a, k) then 1 else 0)
    ensures TotalLength(hobs[i := h]) + Bytes(hobs[i]) == TotalLength(hobs) + Bytes(h)
  {
    var m := |hobs| - 1;
    if i < m {
      CoverUpdate(hobs[..m], i, h, a, k);
      assert hobs[i := h][..m] == hobs[..m][i := h];
    } else {
      assert hobs[i := h][..m] == hobs[..m];
    }
  }

  /** No descriptor runs past the end of the address space. */
  predicate InRange(hobs: seq<Hob>) {
    forall j | 0 <= j < |hobs| && hobs[j].Resource? :: hobs[j].start + hobs[j].length < SPAN64
  }

  /** Replacing a descriptor by a smaller one and appending the difference. */
  lemma Replaced(hobs: seq<Hob>, i: nat, g: Hob, f: Hob, a: nat, k: Option<nat>)
    requires i < |hobs|
    ensures var r := hobs[i := g] + [f];
      && Cover(r, a, k) + (if Counts(hobs[i], a, k) then 1 else 0)
         == Cover(hobs, a, k) + (if Counts(g, a, k) then 1 else 0) + (if Counts(f, a, k) then 1 else 0)
      && TotalLength(r) + Bytes(hobs[i]) == TotalLength(hobs) + Bytes(g) + Bytes(f)
  {
    CoverUpdate(hobs, i, g, a, k);
    CoverSnoc(hobs[i := g], f, a, k);
  }

  lemma CarvedBelow(hobs: seq<Hob>, i: nat, pcd: Pcd, a: nat, k: Option<nat>)
    requires i < |hobs| && InRange(hobs) && pcd.Sane() && Holds(hobs[i], pcd) && pcd.fdBase != hobs[i].start
    ensures Cover(Carved(hobs, i, pcd), a, k) == Cover(hobs, a, k)
    ensures TotalLength(Carved(hobs, i, pcd)) == TotalLength(hobs)
  {
    var h := hobs[i];
    assert h.start + h.length < SPAN64;
    var g := h.(length := pcd.fdBase - h.start);
    var r := hobs[i := g] + [Firmware(h, pcd)];
    assert Sub64(pcd.fdBase, h.start) == pcd.fdBase - h.start;
    Replaced(hobs, i, g, Firmware(h, pcd), a, k);
    if pcd.FdTop() < h.start + h.length {
      var above := Resource(true, h.attributes, pcd.FdTop(), h.start + h.length - pcd.FdTop());
      assert Sub64(h.start + h.length, pcd.FdTop()) == h.start + h.length - pcd.FdTop();
      CoverSnoc(r, above, a, k);
      assert Carved(hobs, i, pcd) == r + [above];
    } else {
      assert Carved(hobs, i, pcd) == r;
    }
  }

  /** The split conserves memory, in every branch: each address is in as many
      descriptors as before, with the same attributes, and the lengths add up
      to the same total. */
  lemma CarvedConserves(hobs: seq<Hob>, i: nat, pcd: Pcd, a: nat, k: Option<nat>)
    requires i < |hobs| && InRange(hobs) && pcd.Sane() && Holds(hobs[i], pcd)
    ensures Cover(Carved(hobs, i, pcd), a, k) == Cover(hobs, a, k)
    ensures TotalLength(Carved(hobs, i, pcd)) == TotalLength(hobs)
  {
    var h := hobs[i];
    if pcd.fdBase != h.start {
      CarvedBelow(hobs, i, pcd, a, k);
    } else if pcd.MemoryTop() != pcd.FdTop() {
      assert h.start + h.length < SPAN64;
      Replaced(hobs, i, h.(start := h.start + pcd.fdSize, length := h.length - pcd.fdSize), Firmware(h, pcd), a, k);
    }
  }

  /** MemoryPeim as a whole conserves what the first scan leaves. */
  lemma MemoryConserved(hobs: seq<Hob>, pcd: Pcd, a: nat, k: Option<nat>)
    requires InRange(hobs) && pcd.Sane() && Result(hobs, pcd).Some?
    ensures Cover(Result(hobs, pcd).value, a, k) == Cover(Declared(hobs, pcd), a, k)
    ensures TotalLength(Result(hobs, pcd).value) == TotalLength(Declared(hobs, pcd))
  {
    if pcd.Shadowed() {
      var d := Declared(hobs, pcd);
      var i := FirstIndex(d, h => Holds(h, pcd));
      CarvedConserves(d, i, pcd, a, k);
      CoverSnoc(Carved(d, i, pcd), Allocation(pcd.fdBase, pcd.fdSize), a, k);
    }
  }

  // --------------------------------------------------------- what it declares

  /** The two tests of the scans, by addresses: a descriptor passes the first if
      it starts at or below system memory and has nothing above it. */
  lemma DeclaresExactly(h: Hob, pcd: Pcd)
    requires pcd.Sane() && (h.Resource? ==> h.start + h.length < SPAN64)
    ensures Declares(h, pcd) <==>
      && h.Resource? && h.systemMemory && h.start <= pcd.memoryBase
      && forall a: nat | Counts(h, a, None) :: a < pcd.memoryBase + pcd.memorySize
  {
    if h.Resource? && h.systemMemory && h.length > 0 && !Declares(h, pcd) {
      assert Counts(h, h.start + h.length - 1, None);
    }
  }

  /** And the second if it has every address of the image. */
  lemma HoldsExactly(h: Hob, pcd: Pcd)
    requires pcd.Sane() && pcd.fdSize > 0 && (h.Resource? ==> h.start + h.length < SPAN64)
    ensures Holds(h, pcd) <==> forall a: nat | pcd.fdBase <= a < pcd.fdBase + pcd.fdSize :: Counts(h, a, None)
  {
    if forall a: nat | pcd.fdBase <= a < pcd.fdBase + pcd.fdSize :: Counts(h, a, None) {
      assert Counts(h, pcd.fdBase, None) && Counts(h, pcd.fdBase + pcd.fdSize - 1, None);
    }
  }

  predicate NoneDeclares(hobs: seq<Hob>, pcd: Pcd) {
    forall j | 0 <= j < |hobs| :: !Declares(hobs[j], pcd)
  }

  lemma FirstScan(hobs: seq<Hob>, pcd: Pcd, a: nat, k: Option<nat>)
    ensures Cover(Declared(hobs, pcd), a, k) == Cover(hobs, a, k)
      + if NoneDeclares(hobs, pcd) && InMain(a, pcd) && (k.Some? ==> k.value == 0x3807) then 1 else 0
    ensures TotalLength(Declared(hobs, pcd)) == TotalLength(hobs)
      + if NoneDeclares(hobs, pcd) then pcd.memorySize else 0
  {
    CoverSnoc(hobs, MainMemory(pcd), a, k);
    if NoneDeclares(hobs, pcd) {
      assert Declared(hobs, pcd) == hobs + [MainMemory(pcd)];
    } else {
      assert Declared(hobs, pcd) == hobs;
    }
  }

  /** What MemoryPeim declares, for each address and attribute and in total: if no
      descriptor passes the first scan, system memory once more, with the six
      attributes, and nothing otherwise. */
  lemma DeclaredExactly(hobs: seq<Hob>, pcd: Pcd, a: nat, k: Option<nat>)
    requires InRange(hobs) && pcd.Sane()
    ensures Cover(Final(hobs, pcd), a, k) == Cover(hobs, a, k)
      + if NoneDeclares(hobs, pcd) && InMain(a, pcd) && (k.Some? ==> k.value == 0x3807) then 1 else 0
    ensures TotalLength(Final(hobs, pcd)) == TotalLength(hobs) + if NoneDeclares(hobs, pcd) then pcd.memorySize else 0
  {
    FirstScan(hobs, pcd, a, k);
    if Result(hobs, pcd).Some? { MemoryConserved(hobs, pcd, a, k); }
  }

  /** The allocation records of a list. */
  function Allocations(hobs: seq<Hob>): seq<Hob> {
    if hobs == [] then []
    else Allocations(hobs[..|hobs| - 1]) + if hobs[|hobs| - 1].Allocation? then [hobs[|hobs| - 1]] else []
  }

  lemma AllocationsSnoc(hobs: seq<Hob>, h: Hob)
    ensures Allocations(hobs + [h]) == Allocations(hobs) + if h.Allocation? then [h] else []
  {
    assert (hobs + [h])[..|hobs|] == hobs;
  }

  lemma {:induction false} AllocationsUpdate(hobs: seq<Hob>, i: nat, h: Hob)
    requires i < |hobs| && !hobs[i].Allocation? && !h.Allocation?
    ensures Allocations(hobs[i := h]) == Allocations(hobs)
  {
    var m := |hobs| - 1;
    if i < m {
      AllocationsUpdate(hobs[..m], i, h);
      assert hobs[i := h][..m] == hobs[..m][i := h];
    } else {
      assert hobs[i := h][..m] == hobs[..m];
    }
  }

  lemma SplitAllocates(hobs: seq<Hob>, i: nat, pcd: Pcd)
    requires i < |hobs| && hobs[i].Resource?
    ensures Allocations(Carved(hobs, i, pcd)) == Allocations(hobs)
  {
    var r := Carved(hobs, i, pcd);
    var g := hobs[i := r[i]];
    AllocationsUpdate(hobs, i, r[i]);
    if |r| == |hobs| {
      assert r == g;
    } else {
      AllocationsSnoc(g, r[|hobs|]);
      if |r| == |hobs| + 1 {
        assert r == g + [r[|hobs|]];
      } else {
        AllocationsSnoc(g + [r[|hobs|]], r[|hobs| + 1]);
        assert r == g + [r[|hobs|]] + [r[|hobs| + 1]];
      }
    }
  }

  lemma ScanAllocates(hobs: seq<Hob>, pcd: Pcd)
    ensures Allocations(Declared(hobs, pcd)) == Allocations(hobs)
  {
    AllocationsSnoc(hobs, MainMemory(pcd));
  }

  lemma CarvingAllocates(d: seq<Hob>, i: nat, pcd: Pcd)
    requires i < |d| && d[i].Resource?
    ensures Allocations(Carved(d, i, pcd) + [Allocation(pcd.fdBase, pcd.fdSize)])
         == Allocations(d) + [Allocation(pcd.fdBase, pcd.fdSize)]
  {
    SplitAllocates(d, i, pcd);
    AllocationsSnoc(Carved(d, i, pcd), Allocation(pcd.fdBase, pcd.fdSize));
  }

  /** The one allocation record that is new is the range of the image, and there
      is one exactly when the image is inside system memory and some descriptor
      holds it. */
  lemma AllocatedExactly(hobs: seq<Hob>, pcd: Pcd)
    requires pcd.Sane()
    ensures Allocations(Final(hobs, pcd)) == Allocations(hobs) + if ImageIn(pcd) && Result(hobs, pcd).Some?
      then [Allocation(pcd.fdBase, pcd.fdSize)] else []
  {
    ScanAllocates(hobs, pcd);
    ShadowedExactly(pcd);
    if pcd.Shadowed() && Result(hobs, pcd).Some? {
      SuccessAllocates(hobs, pcd);
    } else {
      assert Final(hobs, pcd) == Declared(hobs, pcd);
    }
  }

  lemma SuccessAllocates(hobs: seq<Hob>, pcd: Pcd)
    requires pcd.Shadowed() && Result(hobs, pcd).Some?
    ensures Allocations(Final(hobs, pcd))
         == Allocations(Declared(hobs, pcd)) + [Allocation(pcd.fdBase, pcd.fdSize)]
  {
    var d := Declared(hobs, pcd);
    CarvingAllocates(d, FirstIndex(d, h => Holds(h, pcd)), pcd);
  }

  /** The image is inside system memory. */
  predicate ImageIn(pcd: Pcd) {
    pcd.memoryBase <= pcd.fdBase && pcd.fdBase + pcd.fdSize <= pcd.memoryBase + pcd.memorySize
  }

  lemma ShadowedExactly(pcd: Pcd)
    requires pcd.Sane()
    ensures pcd.Shadowed() <==> ImageIn(pcd)
  {
  }

  /** Whatever is not a descriptor of system memory stays where it was. */
  lemma OthersKept(hobs: seq<Hob>, pcd: Pcd, j: nat)
    requires j < |hobs| && !(hobs[j].Resource? && hobs[j].systemMemory)
    ensures j < |Final(hobs, pcd)| && Final(hobs, pcd)[j] == hobs[j]
  {
    var d := Declared(hobs, pcd);
    assert d[j] == hobs[j];
  }

  ghost predicate Disjoint(hobs: seq<Hob>) {
    forall i, j, a: nat | 0 <= i < j < |hobs| && Counts(hobs[i], a, None) :: !Counts(hobs[j], a, None)
  }

  lemma {:induction false} CoverAtLeast(hobs: seq<Hob>, i: nat, a: nat)
    requires i < |hobs| && Counts(hobs[i], a, None)
    ensures Cover(hobs, a, None) >= 1
  {
    if i < |hobs| - 1 { CoverAtLeast(hobs[..|hobs| - 1], i, a); }
  }

  lemma {:induction false} TwiceCovered(hobs: seq<Hob>, i: nat, j: nat, a: nat)
    requires i < j < |hobs| && Counts(hobs[i], a, None) && Counts(hobs[j], a, None)
    ensures Cover(hobs, a, None) >= 2
  {
    var m := |hobs| - 1;
    if j < m { TwiceCovered(hobs[..m], i, j, a); } else { CoverAtLeast(hobs[..m], i, a); }
  }

  lemma {:induction false} DisjointCoversOnce(hobs: seq<Hob>, a: nat)
    requires Disjoint(hobs)
    ensures Cover(hobs, a, None) <= 1
  {
    if hobs != [] {
      var m := |hobs| - 1;
      DisjointCoversOnce(hobs[..m], a);
      if Counts(hobs[m], a, None) { NoCover(hobs[..m], a); }
    }
  }

  lemma {:induction false} NoCover(hobs: seq<Hob>, a: nat)
    requires forall i | 0 <= i < |hobs| :: !Counts(hobs[i], a, None)
    ensures Cover(hobs, a, None) == 0
  {
    if hobs != [] { NoCover(hobs[..|hobs| - 1], a); }
  }

  /** The address belongs to system memory as the settings give it. */
  predicate InMain(a: nat, pcd: Pcd) {
    pcd.memoryBase <= a < pcd.memoryBase + pcd.memorySize
  }

  /** The descriptor has an address of system memory. */
  ghost predicate MeetsMain(h: Hob, pcd: Pcd) {
    exists a: nat :: Counts(h, a, None) && InMain(a, pcd)
  }

  lemma StaysDisjoint(hobs: seq<Hob>, pcd: Pcd)
    requires InRange(hobs) && pcd.Sane() && Disjoint(Declared(hobs, pcd)) && Result(hobs, pcd).Some?
    ensures Disjoint(Result(hobs, pcd).value)
  {
    var d := Declared(hobs, pcd);
    var r := Result(hobs, pcd).value;
    forall i, j, a: nat | 0 <= i < j < |r| && Counts(r[i], a, None) ensures !Counts(r[j], a, None) {
      MemoryConserved(hobs, pcd, a, None);
      DisjointCoversOnce(d, a);
      if Counts(r[j], a, None) { TwiceCovered(r, i, j, a); }
    }
  }

  lemma TwiceDeclared(hobs: seq<Hob>, pcd: Pcd, k: nat, a: nat)
    requires InRange(hobs) && pcd.Sane() && Result(hobs, pcd).Some?
    requires forall j | 0 <= j < |hobs| :: !Declares(hobs[j], pcd)
    requires k < |hobs| && Counts(hobs[k], a, None) && InMain(a, pcd)
    ensures Cover(Result(hobs, pcd).value, a, None) >= 2
  {
    var d := Declared(hobs, pcd);
    assert d[k] == hobs[k] && d[|hobs|] == MainMemory(pcd);
    TwiceCovered(d, k, |hobs|, a);
    MemoryConserved(hobs, pcd, a, None);
  }

  /** Disjoint descriptors stay pairwise disjoint exactly when one passes the
      first scan, or the main range it then declares meets none of them. */
  lemma StaysDisjointExactly(hobs: seq<Hob>, pcd: Pcd)
    requires InRange(hobs) && pcd.Sane() && Disjoint(hobs) && Result(hobs, pcd).Some?
    ensures Disjoint(Result(hobs, pcd).value) <==>
      (exists j | 0 <= j < |hobs| :: Declares(hobs[j], pcd)) || (forall j | 0 <= j < |hobs| :: !MeetsMain(hobs[j], pcd))
  {
    if exists j | 0 <= j < |hobs| :: Declares(hobs[j], pcd) {
      assert Declared(hobs, pcd) == hobs;
      StaysDisjoint(hobs, pcd);
    } else if k :| 0 <= k < |hobs| && MeetsMain(hobs[k], pcd) {
      var a: nat :| Counts(hobs[k], a, None) && InMain(a, pcd);
      TwiceDeclared(hobs, pcd, k, a);
      DisjointCoversOnceContra(Result(hobs, pcd).value, a);
    } else {
      DeclaredDisjoint(hobs, pcd);
      StaysDisjoint(hobs, pcd);
    }
  }

  lemma DisjointCoversOnceContra(hobs: seq<Hob>, a: nat)
    requires Cover(hobs, a, None) >= 2
    ensures !Disjoint(hobs)
  {
    if Disjoint(hobs) { DisjointCoversOnce(hobs, a); }
  }

  lemma DeclaredDisjoint(hobs: seq<Hob>, pcd: Pcd)
    requires Disjoint(hobs) && forall j | 0 <= j < |hobs| :: !MeetsMain(hobs[j], pcd)
    ensures Disjoint(Declared(hobs, pcd))
  {
    var d := Declared(hobs, pcd);
    forall i, j, a: nat | 0 <= i < j < |d| && Counts(d[i], a, None) ensures !Counts(d[j], a, None) {
      assert !MeetsMain(hobs[i], pcd);
    }
  }

  /** A descriptor that holds system memory and more above it fails the first
      scan, and all of system memory is declared a second time. */
  lemma LargerMemoryIsDeclaredTwice(a: nat)
    ensures var hobs := [Resource(true, 7, 0x4000_0000, 0x1_0000_0000)];
      var pcd := Pcd(0x8000_0000, 0x1000_0000, 0, 0x10_0000);
      && Disjoint(hobs) && InRange(hobs) && pcd.Sane() && Result(hobs, pcd).Some?
      && (pcd.memoryBase <= a < pcd.memoryBase + pcd.memorySize ==> Cover(Result(hobs, pcd).value, a, None) >= 2)
      && !Disjoint(Result(hobs, pcd).value)
  {
    var hobs := [Resource(true, 7, 0x4000_0000, 0x1_0000_0000)];
    var pcd := Pcd(0x8000_0000, 0x1000_0000, 0, 0x10_0000);
    assert !Declares(hobs[0], pcd);
    TwiceDeclared(hobs, pcd, 0, 0x8000_0000);
    DisjointCoversOnceContra(Result(hobs, pcd).value, 0x8000_0000);
    if pcd.memoryBase <= a < pcd.memoryBase + pcd.memorySize { TwiceDeclared(hobs, pcd, 0, a); }
  }

  // -------------------------------------------- where the code falls short

  /** The final assertion holds, for firmware inside system memory, exactly when
      no descriptor passes the first scan or some descriptor holds the image. */
  lemma AssertionExactly(hobs: seq<Hob>, pcd: Pcd)
    requires ImageIn(pcd) && pcd.Sane()
    ensures Result(hobs, pcd).Some? <==>
      (forall j | 0 <= j < |hobs| :: !Declares(hobs[j], pcd)) || (exists j | 0 <= j < |hobs| :: Holds(hobs[j], pcd))
  {
    var d := Declared(hobs, pcd);
    if forall j | 0 <= j < |hobs| :: !Declares(hobs[j], pcd) {
      assert d[|hobs|] == MainMemory(pcd);
      assert Holds(d[|hobs|], pcd);
    } else {
      assert d == hobs;
    }
  }

  /** The address is declared as system memory. */
  ghost predicate Covered(hobs: seq<Hob>, a: nat) {
    exists j | 0 <= j < |hobs| :: Counts(hobs[j], a, None)
  }

  ghost predicate MainCovered(hobs: seq<Hob>, pcd: Pcd) {
    forall a: nat | pcd.memoryBase <= a < pcd.memoryBase + pcd.memorySize :: Covered(hobs, a)
  }

  lemma CoverTells(hobs: seq<Hob>, a: nat)
    ensures Covered(hobs, a) <==> Cover(hobs, a, None) >= 1
  {
    if Covered(hobs, a) {
      var j :| 0 <= j < |hobs| && Counts(hobs[j], a, None);
      CoverAtLeast(hobs, j, a);
    } else {
      NoCover(hobs, a);
    }
  }

  /** The first address of system memory is in a descriptor, and so is each
      address inside system memory at which a descriptor ends. */
  ghost predicate SeamsCovered(hobs: seq<Hob>, pcd: Pcd) {
    && Covered(hobs, pcd.memoryBase)
    && forall j | 0 <= j < |hobs| && SeamIn(hobs[j], pcd) :: Covered(hobs, hobs[j].start + hobs[j].length)
  }

  predicate SeamIn(h: Hob, pcd: Pcd) {
    h.Resource? && h.systemMemory && pcd.memoryBase < h.start + h.length < pcd.memoryBase + pcd.memorySize
  }

  /** Going up from the base, coverage can only stop at a seam. */
  lemma {:induction false} NoGap(hobs: seq<Hob>, pcd: Pcd, a: nat)
    requires SeamsCovered(hobs, pcd) && pcd.memoryBase <= a < pcd.memoryBase + pcd.memorySize
    ensures Covered(hobs, a)
    decreases a
  {
    if a > pcd.memoryBase {
      NoGap(hobs, pcd, a - 1);
      var j :| 0 <= j < |hobs| && Counts(hobs[j], a - 1, None);
      if !Counts(hobs[j], a, None) { assert SeamIn(hobs[j], pcd); }
    }
  }

  /** So it is enough to look at the base and at the ends of descriptors. */
  lemma SeamsExactly(hobs: seq<Hob>, pcd: Pcd)
    requires pcd.memorySize > 0
    ensures MainCovered(hobs, pcd) <==> SeamsCovered(hobs, pcd)
  {
    if SeamsCovered(hobs, pcd) {
      forall a: nat | pcd.memoryBase <= a < pcd.memoryBase + pcd.memorySize ensures Covered(hobs, a) {
        NoGap(hobs, pcd, a);
      }
    }
  }

  lemma FinalCovers(hobs: seq<Hob>, pcd: Pcd, a: nat)
    requires InRange(hobs) && pcd.Sane()
    ensures Covered(Final(hobs, pcd), a) <==> Covered(Declared(hobs, pcd), a)
  {
    CoverTells(Final(hobs, pcd), a);
    CoverTells(Declared(hobs, pcd), a);
    if Result(hobs, pcd).Some? { MemoryConserved(hobs, pcd, a, None); }
  }

  lemma DeclaredCovers(hobs: seq<Hob>, pcd: Pcd)
    requires forall j | 0 <= j < |hobs| :: !Declares(hobs[j], pcd)
    ensures MainCovered(Declared(hobs, pcd), pcd)
  {
    var d := Declared(hobs, pcd);
    assert d == hobs + [MainMemory(pcd)];
    forall a: nat | pcd.memoryBase <= a < pcd.memoryBase + pcd.memorySize ensures Covered(d, a) {
      assert Counts(d[|hobs|], a, None);
    }
  }

  /** After MemoryPeim, wherever the image is and whether or not its assertion
      holds, all of system memory is declared exactly when no descriptor passes
      the first scan, or the incoming list has its seams covered already. */
  lemma MainMemoryExactly(hobs: seq<Hob>, pcd: Pcd)
    requires InRange(hobs) && pcd.Sane() && pcd.memorySize > 0
    ensures MainCovered(Final(hobs, pcd), pcd) <==>
      (forall j | 0 <= j < |hobs| :: !Declares(hobs[j], pcd)) || SeamsCovered(hobs, pcd)
  {
    forall a: nat ensures Covered(Final(hobs, pcd), a) <==> Covered(Declared(hobs, pcd), a) {
      FinalCovers(hobs, pcd, a);
    }
    SeamsExactly(hobs, pcd);
    if forall j | 0 <= j < |hobs| :: !Declares(hobs[j], pcd) {
      DeclaredCovers(hobs, pcd);
    } else {
      assert Declared(hobs, pcd) == hobs;
    }
  }

  /** The first scan accepts a descriptor that ends below system memory; then
      system memory is not declared at all.  With the image inside system memory
      the assertion fails; with the image elsewhere nothing tells. */
  lemma LowMemoryHidesMainMemory(fdBase: nat)
    requires fdBase == 0x8000_0000 || fdBase == 0
    ensures var hobs := [Resource(true, 7, 0, 0x1000)];
      var pcd := Pcd(0x8000_0000, 0x1000_0000, fdBase, 0x10_0000);
      && Disjoint(hobs) && InRange(hobs) && pcd.Sane() && Final(hobs, pcd) == hobs
      && (forall a: nat | pcd.memoryBase <= a < pcd.memoryBase + pcd.memorySize :: !Covered(Final(hobs, pcd), a))
      && (Result(hobs, pcd) == None <==> fdBase == 0x8000_0000)
  {
    var hobs := [Resource(true, 7, 0, 0x1000)];
    var pcd := Pcd(0x8000_0000, 0x1000_0000, fdBase, 0x10_0000);
    assert Declares(hobs[0], pcd) && (fdBase == 0x8000_0000 ==> !Holds(hobs[0], pcd));
    if fdBase == 0x8000_0000 { AssertionExactly(hobs, pcd); }
  }

  predicate HasFirmware(hobs: seq<Hob>, h: Hob, pcd: Pcd)
    requires h.Resource?
  {
    Firmware(h, pcd) in hobs
  }

  /** The image gets a descriptor of its own except in one case: it starts its
      descriptor, ends system memory, and the descriptor goes on. */
  lemma SplitOffExactly(hobs: seq<Hob>, i: nat, pcd: Pcd)
    requires i < |hobs| && InRange(hobs) && pcd.Sane() && Disjoint(hobs) && Holds(hobs[i], pcd) && pcd.fdSize > 0
    ensures HasFirmware(Carved(hobs, i, pcd), hobs[i], pcd) <==>
      !(pcd.fdBase == hobs[i].start && pcd.FdTop() == pcd.MemoryTop() && hobs[i].length != pcd.fdSize)
  {
    var h := hobs[i];
    var r := Carved(hobs, i, pcd);
    if pcd.fdBase == h.start && pcd.FdTop() == pcd.MemoryTop() {
      if h.length == pcd.fdSize { assert r[i] == Firmware(h, pcd); }
      if j :| 0 <= j < |hobs| && hobs[j] == Firmware(h, pcd) {
        assert Counts(hobs[j], pcd.fdBase, None) && Counts(hobs[i], pcd.fdBase, None);
      }
    } else {
      assert r[|hobs|] == Firmware(h, pcd);
    }
  }
}
