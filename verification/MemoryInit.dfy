/** Resource descriptors for system memory, the split around the firmware device (FD), and the choice
    of the region given to UEFI. */
module MemoryInit {
  import opened Bytes

  const MAX_ALLOC_ADDRESS: nat := 0xFFFF_FFFF_FFFF

  // PRESENT, INITIALIZED, WRITE_COMBINEABLE, WRITE_THROUGH_CACHEABLE, WRITE_BACK_CACHEABLE and TESTED.
  const MEMORY_ATTRIBUTES: nat := 0x1 + 0x2 + 0x800 + 0x1000 + 0x2000 + 0x4

  datatype Hob =
    | Resource(systemMemory: bool, attributes: nat, start: Uint64, length: Uint64)
    | BootServicesData(base: Uint64, size: Uint64)
    | OtherHob

  /** The platform configuration. */
  datatype Platform = Platform(memoryBase: Uint64, memorySize: Uint64, fdBase: Uint64, fdSize: Uint32,
      regionSize: Uint32)
  {
    function MemoryTop(): nat { memoryBase + memorySize }
    function FdTop(): nat { fdBase + fdSize }

    /** Neither range wraps around the address space. */
    predicate Valid() { MemoryTop() < TWO_64 && FdTop() < TWO_64 }
  }

  predicate IsSystemMemory(h: Hob) {
    h.Resource? && h.systemMemory
  }

  predicate CoversAddress(h: Hob, a: nat) {
    IsSystemMemory(h) && h.start <= a < h.start + h.length
  }

  // Memory as the descriptors describe it.

  function CoverOne(h: Hob, a: nat): multiset<nat> {
    if CoversAddress(h, a) then multiset{h.attributes} else multiset{}
  }

  /** The attributes of every system-memory descriptor over address `a`. */
  function Cover(hobs: seq<Hob>, a: nat): multiset<nat> {
    if hobs == [] then multiset{} else CoverOne(hobs[0], a) + Cover(hobs[1..], a)
  }

  lemma {:induction false} CoverConcat(s: seq<Hob>, t: seq<Hob>, a: nat)
    ensures Cover(s + t, a) == Cover(s, a) + Cover(t, a)
  {
    hide CoverOne;
    if s == [] {
      assert s + t == t;
    } else {
      CoverConcat(s[1..], t, a);
      assert (s + t)[1..] == s[1..] + t;
    }
  }

  lemma CoverAt(hobs: seq<Hob>, i: nat, h: Hob, a: nat)
    requires i < |hobs|
    ensures Cover(hobs, a) == Cover(hobs[..i], a) + CoverOne(hobs[i], a) + Cover(hobs[i + 1..], a)
    ensures Cover(hobs[i := h], a) == Cover(hobs[..i], a) + CoverOne(h, a) + Cover(hobs[i + 1..], a)
  {
    hide CoverOne;
    CoverParts(hobs[..i], hobs[i], hobs[i + 1..], a);
    CoverParts(hobs[..i], h, hobs[i + 1..], a);
    assert hobs == hobs[..i] + [hobs[i]] + hobs[i + 1..];
    assert hobs[i := h] == hobs[..i] + [h] + hobs[i + 1..];
  }

  lemma CoverParts(s: seq<Hob>, h: Hob, t: seq<Hob>, a: nat)
    ensures Cover(s + [h] + t, a) == Cover(s, a) + CoverOne(h, a) + Cover(t, a)
  {
    hide CoverOne;
    CoverConcat(s + [h], t, a);
    CoverConcat(s, [h], a);
    assert Cover([h], a) == CoverOne(h, a);
  }

  predicate Overlap(x: Hob, y: Hob) {
    && IsSystemMemory(x) && IsSystemMemory(y)
    && x.length > 0 && y.length > 0
    && x.start < y.start + y.length && y.start < x.start + x.length
  }

  ghost predicate PairwiseDisjoint(hobs: seq<Hob>) {
    forall i, j :: 0 <= i < j < |hobs| ==> !Overlap(hobs[i], hobs[j])
  }

  lemma CoverHas(hobs: seq<Hob>, i: nat, a: nat)
    requires i < |hobs| && CoversAddress(hobs[i], a)
    ensures |Cover(hobs, a)| >= 1
  {
    CoverAt(hobs, i, hobs[i], a);
  }

  lemma {:induction false} CoverEmpty(hobs: seq<Hob>, a: nat)
    requires forall i :: 0 <= i < |hobs| ==> !CoversAddress(hobs[i], a)
    ensures Cover(hobs, a) == multiset{}
  {
    if hobs != [] {
      CoverEmpty(hobs[1..], a);
    }
  }

  ghost predicate DescribedOnce(hobs: seq<Hob>) {
    forall a: nat :: |Cover(hobs, a)| <= 1
  }

  lemma {:induction false} DisjointCoverOnce(hobs: seq<Hob>, a: nat)
    requires PairwiseDisjoint(hobs)
    ensures |Cover(hobs, a)| <= 1
  {
    if hobs != [] {
      var t := hobs[1..];
      assert forall i :: 0 <= i < |t| ==> t[i] == hobs[i + 1];
      if CoversAddress(hobs[0], a) {
        forall i | 0 <= i < |t| ensures !CoversAddress(t[i], a) {
          assert !Overlap(hobs[0], hobs[i + 1]);
        }
        CoverEmpty(t, a);
      } else {
        DisjointCoverOnce(t, a);
      }
    }
  }

  lemma OverlapCoversTwice(hobs: seq<Hob>, i: nat, j: nat)
    requires i < j < |hobs| && Overlap(hobs[i], hobs[j])
    ensures exists a: nat :: |Cover(hobs, a)| >= 2
  {
    hide Cover;
    var a := if hobs[i].start < hobs[j].start then hobs[j].start else hobs[i].start;
    CoverAt(hobs, i, hobs[i], a);
    assert hobs[i + 1..][j - i - 1] == hobs[j];
    CoverHas(hobs[i + 1..], j - i - 1, a);
    assert |Cover(hobs, a)| >= 2;
  }

  /** Descriptors are pairwise disjoint exactly when no address is described twice. */
  lemma DisjointIff(hobs: seq<Hob>)
    ensures PairwiseDisjoint(hobs) <==> DescribedOnce(hobs)
  {
    if PairwiseDisjoint(hobs) {
      forall a: nat ensures |Cover(hobs, a)| <= 1 {
        DisjointCoverOnce(hobs, a);
      }
    } else {
      var i, j :| 0 <= i < j < |hobs| && Overlap(hobs[i], hobs[j]);
      OverlapCoversTwice(hobs, i, j);
    }
  }

  // MemoryPeim, as functions of the HOB list.

  /** The end of a descriptor as the source computes it: it wraps around at the top of the address space. */
  function End(h: Hob): Uint64
    requires h.Resource?
  {
    Add64(h.start, h.length)
  }

  /** The test for "main system memory is declared": starts at or below its base, ends at or below its top. */
  predicate DeclaresMemory(h: Hob, p: Platform) {
    IsSystemMemory(h) && p.memoryBase >= h.start && End(h) <= p.MemoryTop()
  }

  predicate IsDeclared(hobs: seq<Hob>, p: Platform) {
    exists i :: 0 <= i < |hobs| && DeclaresMemory(hobs[i], p)
  }

  /** A descriptor whose end wraps never passes. */
  predicate ContainsFd(h: Hob, p: Platform) {
    IsSystemMemory(h) && p.fdBase >= h.start && p.FdTop() <= End(h)
  }

  function MainMemory(p: Platform): Hob {
    Resource(true, MEMORY_ATTRIBUTES, p.memoryBase, p.memorySize)
  }

  function Declared(hobs: seq<Hob>, p: Platform): seq<Hob> {
    if IsDeclared(hobs, p) then hobs else hobs + [MainMemory(p)]
  }

  predicate FdInMemory(p: Platform) {
    p.fdBase >= p.memoryBase && p.FdTop() <= p.MemoryTop()
  }

  /** The first descriptor that contains the FD, or the length of the list. */
  function FdDescriptor(hobs: seq<Hob>, p: Platform): (i: nat)
    ensures i <= |hobs|
    ensures i < |hobs| ==> ContainsFd(hobs[i], p)
    ensures forall j :: 0 <= j < i ==> !ContainsFd(hobs[j], p)
  {
    if hobs == [] || ContainsFd(hobs[0], p) then 0 else 1 + FdDescriptor(hobs[1..], p)
  }

  /** What the descriptor `d` around the FD becomes, and the descriptors added for it. */
  function SplitDescriptor(d: Hob, p: Platform): (r: (Hob, seq<Hob>))
    requires ContainsFd(d, p)
    ensures r.0.Resource?
  {
    var fd := Resource(true, d.attributes, p.fdBase, p.fdSize);
    var top := End(d);
    if p.fdBase == d.start then
      if p.MemoryTop() != p.FdTop() then (d.(start := d.start + p.fdSize, length := d.length - p.fdSize), [fd])
      else (d, [])
    else
      (d.(length := p.fdBase - d.start),
       if p.FdTop() < top then [fd, Resource(true, d.attributes, p.FdTop(), top - p.FdTop())] else [fd])
  }

  function Split(hobs: seq<Hob>, p: Platform): seq<Hob> {
    var i := FdDescriptor(hobs, p);
    if !FdInMemory(p) || i == |hobs| then hobs
    else
      var (d, added) := SplitDescriptor(hobs[i], p);
      hobs[i := d] + added + [BootServicesData(p.fdBase, p.fdSize)]
  }

  /** Whether the search for the FD's descriptor succeeds, where the source makes one. */
  predicate FdFound(hobs: seq<Hob>, p: Platform) {
    FdInMemory(p) ==> FdDescriptor(hobs, p) < |hobs|
  }

  class HobList {
    var hobs: seq<Hob>
    var peiMemory: Option<(nat, nat)>

    constructor (hobs: seq<Hob>)
      ensures this.hobs == hobs && peiMemory == None
    {
      this.hobs, peiMemory := hobs, None;
    }

    method BuildResourceDescriptorHob(attributes: nat, start: Uint64, length: Uint64)
      modifies `hobs
      ensures hobs == old(hobs) + [Resource(true, attributes, start, length)]
    {
      hobs := hobs + [Resource(true, attributes, start, length)];
    }

    method BuildMemoryAllocationHob(base: Uint64, size: Uint64)
      modifies `hobs
      ensures hobs == old(hobs) + [BootServicesData(base, size)]
    {
      hobs := hobs + [BootServicesData(base, size)];
    }

    /** The final assertion of the source holds exactly when `found` is returned. */
    method MemoryPeim(p: Platform) returns (found: bool)
      requires p.Valid()
      modifies `hobs
      ensures hobs == Split(Declared(old(hobs), p), p)
      ensures found <==> FdFound(Declared(old(hobs), p), p)
    {
      DeclareMemory(p);
      found := true;
      if p.fdBase >= p.memoryBase && p.FdTop() <= p.MemoryTop() {
        found := SplitAroundFd(p);
      }
    }

    method DeclareMemory(p: Platform)
      modifies `hobs
      ensures hobs == Declared(old(hobs), p)
      ensures old(hobs) <= hobs
    {
      var found, i := false, 0;
      while i < |hobs| && !found
        invariant i <= |hobs| && hobs == old(hobs)
        invariant found ==> i < |hobs| && DeclaresMemory(hobs[i], p)
        invariant !found ==> forall j :: 0 <= j < i ==> !DeclaresMemory(hobs[j], p)
        decreases |hobs| - i, !found
      {
        if DeclaresMemory(hobs[i], p) {
          found := true;
        } else {
          i := i + 1;
        }
      }
      if !found {
        BuildResourceDescriptorHob(MEMORY_ATTRIBUTES, p.memoryBase, p.memorySize);
      }
    }

    method SplitAroundFd(p: Platform) returns (found: bool)
      requires FdInMemory(p)
      modifies `hobs
      ensures hobs == Split(old(hobs), p)
      ensures found <==> FdFound(old(hobs), p)
    {
      var i := 0;
      while i < |hobs|
        invariant i <= |hobs| && hobs == old(hobs)
        invariant forall j :: 0 <= j < i ==> !ContainsFd(hobs[j], p)
      {
        if ContainsFd(hobs[i], p) {
          var d := hobs[i];
          var top := End(d);
          if p.fdBase == d.start {
            if p.MemoryTop() != p.FdTop() {
              BuildResourceDescriptorHob(d.attributes, p.fdBase, p.fdSize);
              hobs := hobs[i := hobs[i].(start := hobs[i].start + p.fdSize, length := hobs[i].length - p.fdSize)];
            }
          } else {
            BuildResourceDescriptorHob(d.attributes, p.fdBase, p.fdSize);
            hobs := hobs[i := hobs[i].(length := p.fdBase - hobs[i].start)];
            if p.FdTop() < Add64(hobs[i].start, d.length) {
              BuildResourceDescriptorHob(d.attributes, p.FdTop(), top - p.FdTop());
            }
          }
          BuildMemoryAllocationHob(p.fdBase, p.fdSize);
          return true;
        }
        i := i + 1;
      }
      return false;
    }

    /** A failed assertion stops the boot and is returned as false. */
    method InitializeMemory(p: Platform) returns (ok: bool)
      requires p.Valid()
      modifies this
      ensures Place(p).None? ==> !ok && hobs == old(hobs) && peiMemory == old(peiMemory)
      ensures Place(p).Some? ==>
                && peiMemory == Some((Place(p).value, p.regionSize))
                && hobs == Split(Declared(old(hobs), p), p)
                && (ok <==> FdFound(Declared(old(hobs), p), p))
    {
      if p.memorySize == 0 || p.memoryBase >= MAX_ALLOC_ADDRESS {
        return false;
      }
      var top := p.MemoryTop();
      if top - 1 > MAX_ALLOC_ADDRESS {
        top := MAX_ALLOC_ADDRESS + 1;
      }
      var uefiBase: nat;
      if p.fdBase >= p.memoryBase && p.FdTop() <= top {
        if top - p.FdTop() >= p.regionSize {
          uefiBase := top - p.regionSize;
        } else {
          if p.memoryBase + p.regionSize > p.fdBase {
            return false;
          }
          uefiBase := p.fdBase - p.regionSize;
        }
      } else {
        if p.memoryBase <= p.fdBase < top || p.memoryBase < p.FdTop() <= top {
          return false;
        }
        uefiBase := Subtract64(top, p.regionSize);
      }
      peiMemory := Some((uefiBase, p.regionSize));
      ok := MemoryPeim(p);
    }
  }

  // Conservation.

  lemma CoverFew(h: Hob, g: Hob, a: nat)
    ensures Cover([], a) == multiset{}
    ensures Cover([h], a) == CoverOne(h, a)
    ensures Cover([h, g], a) == CoverOne(h, a) + CoverOne(g, a)
  {
    assert [h, g][1..] == [g] && [g][1..] == [];
  }

  lemma SplitDescriptorConserves(d: Hob, p: Platform, a: nat)
    requires ContainsFd(d, p)
    ensures var (d', added) := SplitDescriptor(d, p);
            CoverOne(d', a) + Cover(added, a) == CoverOne(d, a)
  {
    hide Cover, CoverOne;
    var (low, fd, top) := (d.start, p.fdBase, d.start + d.length);
    assert d == Resource(true, d.attributes, low, top - low);
    CutInTwo(d.attributes, low, fd, top, a);
    CutInTwo(d.attributes, fd, p.FdTop(), top, a);
    CoverFew(Resource(true, d.attributes, fd, p.fdSize), Resource(true, d.attributes, p.FdTop(), top - p.FdTop()), a);
  }

  lemma CutInTwo(attributes: nat, low: Uint64, cut: Uint64, top: Uint64, a: nat)
    requires low <= cut <= top
    ensures CoverOne(Resource(true, attributes, low, cut - low), a)
            + CoverOne(Resource(true, attributes, cut, top - cut), a)
         == CoverOne(Resource(true, attributes, low, top - low), a)
    ensures cut == top ==> CoverOne(Resource(true, attributes, cut, top - cut), a) == multiset{}
  {
  }

  /** The split leaves every address described with the same attributes, as often as before: in all
      branches, for any list of descriptors. */
  lemma SplitConservesMemory(hobs: seq<Hob>, p: Platform, a: nat)
    ensures Cover(Split(hobs, p), a) == Cover(hobs, a)
  {
    hide CoverOne;
    var i := FdDescriptor(hobs, p);
    if FdInMemory(p) && i < |hobs| {
      var (d, added) := SplitDescriptor(hobs[i], p);
      SplitDescriptorConserves(hobs[i], p, a);
      CoverAt(hobs, i, d, a);
      var alloc := BootServicesData(p.fdBase, p.fdSize);
      CoverConcat(hobs[i := d] + added, [alloc], a);
      CoverConcat(hobs[i := d], added, a);
      CoverEmpty([alloc], a);
    }
  }

  lemma SplitKeepsDisjoint(hobs: seq<Hob>, p: Platform)
    ensures PairwiseDisjoint(Split(hobs, p)) <==> PairwiseDisjoint(hobs)
  {
    hide Split, PairwiseDisjoint, DescribedOnce;
    var after := Split(hobs, p);
    DisjointIff(hobs);
    DisjointIff(after);
    SameCoverSameOnce(hobs, p);
  }

  lemma SameCoverSameOnce(hobs: seq<Hob>, p: Platform)
    ensures DescribedOnce(Split(hobs, p)) <==> DescribedOnce(hobs)
  {
    hide Split;
    if DescribedOnce(hobs) {
      forall a: nat ensures |Cover(Split(hobs, p), a)| <= 1 {
        SplitConservesMemory(hobs, p, a);
      }
    }
    if DescribedOnce(Split(hobs, p)) {
      forall a: nat ensures |Cover(hobs, a)| <= 1 {
        SplitConservesMemory(hobs, p, a);
      }
    }
  }

  /** Over all of MemoryPeim, memory is what it was, plus the main memory when no descriptor declared it. */
  lemma MemoryPeimConserves(hobs: seq<Hob>, p: Platform, a: nat)
    ensures Cover(Split(Declared(hobs, p), p), a)
         == Cover(hobs, a)
            + if IsDeclared(hobs, p) then multiset{} else CoverOne(MainMemory(p), a)
  {
    hide Split, CoverOne, IsDeclared;
    SplitConservesMemory(Declared(hobs, p), p, a);
    CoverConcat(hobs, [MainMemory(p)], a);
    assert Cover([MainMemory(p)], a) == CoverOne(MainMemory(p), a);
  }

  /** The whole of MemoryPeim leaves descriptors disjoint exactly when they were, and none overlaps the
      main memory that is added. */
  lemma MemoryPeimKeepsDisjointIff(hobs: seq<Hob>, p: Platform)
    ensures PairwiseDisjoint(Split(Declared(hobs, p), p)) <==>
            && PairwiseDisjoint(hobs)
            && (IsDeclared(hobs, p) || forall i :: 0 <= i < |hobs| ==> !Overlap(hobs[i], MainMemory(p)))
  {
    hide Split, IsDeclared, Overlap;
    var all := Declared(hobs, p);
    SplitKeepsDisjoint(all, p);
    assert forall i :: 0 <= i < |hobs| ==> all[i] == hobs[i];
    if all != hobs && PairwiseDisjoint(all) {
      forall i | 0 <= i < |hobs| ensures !Overlap(hobs[i], MainMemory(p)) {
        assert !Overlap(all[i], all[|hobs|]);
      }
    }
    if PairwiseDisjoint(all) {
      forall i, j | 0 <= i < j < |hobs| ensures !Overlap(hobs[i], hobs[j]) {
        assert !Overlap(all[i], all[j]);
      }
    }
  }

  /** Every address of the main memory is described. */
  ghost predicate MemoryDescribed(hobs: seq<Hob>, p: Platform) {
    forall a: nat :: p.memoryBase <= a < p.MemoryTop() ==> |Cover(hobs, a)| > 0
  }

  /** After MemoryPeim all of the main memory is described exactly when no descriptor passed the declaration
      test, or it was all described before. */
  lemma MemoryDescribedIff(hobs: seq<Hob>, p: Platform)
    ensures MemoryDescribed(Split(Declared(hobs, p), p), p) <==> !IsDeclared(hobs, p) || MemoryDescribed(hobs, p)
  {
    hide Split, IsDeclared, Declared, CoverOne;
    var after := Split(Declared(hobs, p), p);
    if !IsDeclared(hobs, p) || MemoryDescribed(hobs, p) {
      forall a: nat | p.memoryBase <= a < p.MemoryTop() ensures |Cover(after, a)| > 0 {
        MemoryPeimConserves(hobs, p, a);
        MainMemoryCovers(p, a);
      }
    }
    if IsDeclared(hobs, p) && MemoryDescribed(after, p) {
      forall a: nat | p.memoryBase <= a < p.MemoryTop() ensures |Cover(hobs, a)| > 0 {
        MemoryPeimConserves(hobs, p, a);
        assert |Cover(after, a)| > 0;
      }
    }
  }

  lemma MainMemoryCovers(p: Platform, a: nat)
    requires p.memoryBase <= a < p.MemoryTop()
    ensures |CoverOne(MainMemory(p), a)| == 1
  {
  }

  /** A descriptor that passes the declaration test covers the main memory exactly when it ends at its top
      or reaches the top of the address space; the test alone also accepts one that lies wholly below. */
  lemma AcceptedDescriptorCoversIff(h: Hob, p: Platform)
    requires DeclaresMemory(h, p) && p.Valid() && p.memorySize > 0
    ensures (forall a: nat :: p.memoryBase <= a < p.MemoryTop() ==> CoversAddress(h, a))
        <==> h.start + h.length == p.MemoryTop() || h.start + h.length >= TWO_64
  {
    var last := p.MemoryTop() - 1;
    if h.start + h.length < p.MemoryTop() {
      assert !CoversAddress(h, last);
    }
  }

  /** The search for the FD's descriptor fails exactly when the FD lies in memory, some descriptor passes the
      declaration test, and none contains the FD. */
  lemma FdFoundIff(hobs: seq<Hob>, p: Platform)
    requires p.Valid()
    ensures FdFound(Declared(hobs, p), p) <==>
            || !FdInMemory(p)
            || !IsDeclared(hobs, p)
            || exists i :: 0 <= i < |hobs| && ContainsFd(hobs[i], p)
  {
    hide IsDeclared;
    var all := Declared(hobs, p);
    assert !IsDeclared(hobs, p) && FdInMemory(p) ==> ContainsFd(all[|hobs|], p);
  }

  /** A descriptor wholly below the main memory is taken for it; then no descriptor contains the FD, and no
      address of the main memory is described. */
  lemma LowDescriptorHidesMemory(h: Hob, p: Platform)
    requires p.Valid() && p.memorySize > 0
    requires IsSystemMemory(h) && h.length > 0 && h.start + h.length <= p.memoryBase
    ensures Declared([h], p) == [h]
    ensures !MemoryDescribed(Split(Declared([h], p), p), p)
    ensures FdInMemory(p) && p.fdSize > 0 ==> !FdFound(Declared([h], p), p)
  {
    hide Split, Cover;
    assert DeclaresMemory([h][0], p);
    MemoryDescribedIff([h], p);
    CoverEmpty([h], p.memoryBase);
    FdFoundIff([h], p);
  }

  function Allocations(hobs: seq<Hob>): seq<Hob> {
    if hobs == [] then [] else (if hobs[0].BootServicesData? then [hobs[0]] else []) + Allocations(hobs[1..])
  }

  lemma AllocationsStep(h: Hob, hobs: seq<Hob>)
    ensures Allocations([]) == []
    ensures Allocations([h] + hobs) == (if h.BootServicesData? then [h] else []) + Allocations(hobs)
  {
    assert ([h] + hobs)[1..] == hobs;
  }

  lemma {:induction false} AllocationsConcat(s: seq<Hob>, t: seq<Hob>)
    ensures Allocations(s + t) == Allocations(s) + Allocations(t)
  {
    hide Allocations;
    AllocationsStep(OtherHob, []);
    if s == [] {
      assert s + t == t;
      Regroup(Allocations(t), [], []);
    } else {
      var rest, first := s[1..], if s[0].BootServicesData? then [s[0]] else [];
      AllocationsConcat(rest, t);
      assert s == [s[0]] + rest;
      Regroup([s[0]], rest, t);
      AllocationsStep(s[0], rest + t);
      AllocationsStep(s[0], rest);
      Regroup(first, Allocations(rest), Allocations(t));
    }
  }

  lemma {:induction false} AllocationsOfDescriptors(hobs: seq<Hob>)
    requires forall i :: 0 <= i < |hobs| ==> hobs[i].Resource?
    ensures Allocations(hobs) == []
  {
    if hobs != [] {
      AllocationsOfDescriptors(hobs[1..]);
    }
  }

  /** MemoryPeim changes at most one HOB in place, the first descriptor around the FD, and allocates exactly the
      FD, once, where it lies in memory and some descriptor contains it. */
  lemma SplitTouchesOne(hobs: seq<Hob>, p: Platform)
    ensures |Split(hobs, p)| >= |hobs|
    ensures forall i :: 0 <= i < |hobs| && i != FdDescriptor(hobs, p) ==> Split(hobs, p)[i] == hobs[i]
    ensures Allocations(Split(hobs, p)) == Allocations(hobs)
            + if FdInMemory(p) && exists i :: 0 <= i < |hobs| && ContainsFd(hobs[i], p)
              then [BootServicesData(p.fdBase, p.fdSize)] else []
  {
    hide Allocations;
    var i := FdDescriptor(hobs, p);
    if FdInMemory(p) && i < |hobs| {
      var (d, added) := SplitDescriptor(hobs[i], p);
      var alloc := BootServicesData(p.fdBase, p.fdSize);
      AllocationsConcat(hobs[i := d] + added, [alloc]);
      AllocationsConcat(hobs[i := d], added);
      AllocationsOfDescriptors(added);
      OneAllocation(alloc);
      AllocationsUpdate(hobs, i, d);
    }
  }

  lemma OneAllocation(h: Hob)
    requires h.BootServicesData?
    ensures Allocations([h]) == [h]
  {
    assert [h][1..] == [];
  }

  lemma AllocationsUpdate(hobs: seq<Hob>, i: nat, d: Hob)
    requires i < |hobs| && hobs[i].Resource? && d.Resource?
    ensures Allocations(hobs[i := d]) == Allocations(hobs)
  {
    hide Allocations;
    AllocationsConcat(hobs[..i] + [d], hobs[i + 1..]);
    AllocationsConcat(hobs[..i], [d]);
    AllocationsConcat(hobs[..i] + [hobs[i]], hobs[i + 1..]);
    AllocationsConcat(hobs[..i], [hobs[i]]);
    AllocationsOfDescriptors([d]);
    AllocationsOfDescriptors([hobs[i]]);
    assert hobs[i := d] == hobs[..i] + [d] + hobs[i + 1..];
    assert hobs == hobs[..i] + [hobs[i]] + hobs[i + 1..];
  }

  // The firmware device.

  ghost predicate DescribesFd(h: Hob, p: Platform) {
    IsSystemMemory(h) && h.start == p.fdBase && h.length == p.fdSize
  }

  /** After the split some descriptor is exactly the FD, and the allocation HOB equals it, unless the FD
      starts its descriptor, ends at the memory top, and the descriptor goes on above that top. */
  lemma FdIsDescribedIff(hobs: seq<Hob>, p: Platform)
    requires PairwiseDisjoint(hobs) && p.fdSize > 0 && FdInMemory(p)
    requires FdDescriptor(hobs, p) < |hobs|
    ensures BootServicesData(p.fdBase, p.fdSize) in Split(hobs, p)
    ensures var d := hobs[FdDescriptor(hobs, p)];
            (exists j :: 0 <= j < |Split(hobs, p)| && DescribesFd(Split(hobs, p)[j], p))
            <==> !(d.start == p.fdBase && p.FdTop() == p.MemoryTop() && d.start + d.length > p.MemoryTop())
  {
    var i := FdDescriptor(hobs, p);
    var d := hobs[i];
    var (d', added) := SplitDescriptor(d, p);
    var after := Split(hobs, p);
    assert after[|after| - 1] == BootServicesData(p.fdBase, p.fdSize);
    if added != [] {
      assert after[|hobs|] == added[0] && DescribesFd(after[|hobs|], p);
    } else if d.start + d.length == p.MemoryTop() {
      assert after[i] == d && DescribesFd(after[i], p);
    } else {
      forall j | 0 <= j < |after| ensures !DescribesFd(after[j], p) {
        if j < |hobs| && j != i {
          assert after[j] == hobs[j];
          assert !Overlap(hobs[j], d) && !Overlap(d, hobs[j]);
        }
      }
    }
  }

  /** A descriptor that starts with an FD at the memory top and goes on above stays whole. */
  lemma FdStaysUndescribed()
    ensures var p := Platform(0x1000, 0x2000, 0x2000, 0x1000, 0x400);
            var hobs := [Resource(true, 0, 0x1000, 0x1000), Resource(true, 0, 0x2000, 0x3000)];
            && p.Valid() && PairwiseDisjoint(hobs) && FdFound(Declared(hobs, p), p)
            && Split(Declared(hobs, p), p) == hobs + [BootServicesData(0x2000, 0x1000)]
            && forall i :: 0 <= i < |hobs| ==> !DescribesFd(hobs[i], p)
  {
    var p := Platform(0x1000, 0x2000, 0x2000, 0x1000, 0x400);
    var hobs := [Resource(true, 0, 0x1000, 0x1000), Resource(true, 0, 0x2000, 0x3000)];
    assert DeclaresMemory(hobs[0], p) && !ContainsFd(hobs[0], p) && ContainsFd(hobs[1], p);
    assert FdDescriptor(hobs, p) == 1;
  }

  ghost predicate HasEmptyDescriptor(hobs: seq<Hob>) {
    exists j :: 0 <= j < |hobs| && IsSystemMemory(hobs[j]) && hobs[j].length == 0
  }

  /** The split leaves an empty descriptor exactly when the FD is its whole descriptor and does not end at the
      memory top. */
  lemma SplitLeavesEmptyIff(hobs: seq<Hob>, p: Platform)
    requires !HasEmptyDescriptor(hobs) && p.fdSize > 0 && FdInMemory(p)
    requires FdDescriptor(hobs, p) < |hobs|
    ensures var d := hobs[FdDescriptor(hobs, p)];
            HasEmptyDescriptor(Split(hobs, p))
            <==> d.start == p.fdBase && d.length == p.fdSize && p.FdTop() != p.MemoryTop()
  {
    hide FdDescriptor;
    var i := FdDescriptor(hobs, p);
    var d := hobs[i];
    var (d', added) := SplitDescriptor(d, p);
    var after := Split(hobs, p);
    assert after[i] == d';
    if d.start == p.fdBase && d.length == p.fdSize && p.FdTop() != p.MemoryTop() {
      assert IsSystemMemory(after[i]) && after[i].length == 0;
    } else {
      forall j | 0 <= j < |after| ensures !(IsSystemMemory(after[j]) && after[j].length == 0) {
        if j < |hobs| {
          assert j != i ==> after[j] == hobs[j];
        } else if j < |hobs| + |added| {
          assert after[j] == added[j - |hobs|];
        }
      }
    }
  }

  /** A whole descriptor below the memory top becomes empty. */
  lemma EmptyDescriptorIsLeft()
    ensures var p := Platform(0x1000, 0x4000, 0x1000, 0x1000, 0x400);
            var hobs := [Resource(true, 0, 0x1000, 0x1000)];
            p.Valid() && Split(hobs, p) == [Resource(true, 0, 0x2000, 0), hobs[0], BootServicesData(0x1000, 0x1000)]
  {
    var p := Platform(0x1000, 0x4000, 0x1000, 0x1000, 0x400);
    var hobs := [Resource(true, 0, 0x1000, 0x1000)];
    assert ContainsFd(hobs[0], p);
  }

  // The UEFI region.

  function ClampedTop(p: Platform): nat {
    if p.MemoryTop() > MAX_ALLOC_ADDRESS + 1 then MAX_ALLOC_ADDRESS + 1 else p.MemoryTop()
  }

  /** The base chosen for the UEFI region; none when an assertion of the source fails. */
  function Place(p: Platform): Option<nat>
    requires p.Valid()
  {
    var top := ClampedTop(p);
    if p.memorySize == 0 || p.memoryBase >= MAX_ALLOC_ADDRESS then None
    else if p.fdBase >= p.memoryBase && p.FdTop() <= top then
      if top - p.FdTop() >= p.regionSize then Some(top - p.regionSize)
      else if p.memoryBase + p.regionSize <= p.fdBase then Some(p.fdBase - p.regionSize)
      else None
    else if (p.fdBase < p.memoryBase || p.fdBase >= top) && (p.FdTop() <= p.memoryBase || p.FdTop() > top) then
      Some(Subtract64(top, p.regionSize))
    else None
  }

  /** The region [base, base + size) lies in memory below the clamped top and misses the FD. */
  predicate SafeRegion(p: Platform, base: nat) {
    && p.memoryBase <= base && base + p.regionSize <= ClampedTop(p)
    && (base + p.regionSize <= p.fdBase || p.FdTop() <= base)
  }

  /** The assertions of the source do not suffice: the chosen region is safe exactly when it fits into
      memory and the FD does not enclose all of memory. */
  lemma PlacedRegionIsSafeIff(p: Platform)
    requires p.Valid() && p.regionSize > 0 && Place(p).Some?
    ensures SafeRegion(p, Place(p).value)
        <==> p.regionSize <= ClampedTop(p) - p.memoryBase && !(p.fdBase < p.memoryBase && ClampedTop(p) < p.FdTop())
  {
  }

  /** Of all safe regions the highest is chosen. */
  lemma HighestSafeRegion(p: Platform, base: nat)
    requires p.Valid() && p.regionSize > 0 && Place(p).Some? && SafeRegion(p, base)
    ensures base <= Place(p).value
  {
  }

  /** With an FD in memory, a region is placed exactly when there is a safe one. */
  lemma PlacedIffSafeExists(p: Platform)
    requires p.Valid() && p.regionSize > 0 && p.memorySize > 0 && p.memoryBase < MAX_ALLOC_ADDRESS
    requires p.fdBase >= p.memoryBase && p.FdTop() <= ClampedTop(p)
    ensures Place(p).Some? <==> exists base: nat :: SafeRegion(p, base)
  {
    if Place(p).Some? {
      assert SafeRegion(p, Place(p).value);
    }
  }

  /** With any other FD, a region is placed exactly when the FD misses memory or goes beyond it at both ends. */
  lemma PlacedBesideFdIff(p: Platform)
    requires p.Valid() && p.memorySize > 0 && p.memoryBase < MAX_ALLOC_ADDRESS
    requires !(p.fdBase >= p.memoryBase && p.FdTop() <= ClampedTop(p))
    ensures Place(p).Some? <==>
            || p.FdTop() <= p.memoryBase || p.fdBase >= ClampedTop(p)
            || (p.fdBase < p.memoryBase && ClampedTop(p) < p.FdTop())
  {
  }

  /** An FD around all of memory passes the assertions, and the chosen region lies inside the FD. */
  lemma EnclosingFdIsAccepted()
    ensures var p := Platform(0x1000, 0x2000, 0x800, 0x4000, 0x1000);
            p.Valid() && Place(p) == Some(0x2000) && !SafeRegion(p, 0x2000)
  {
  }

  lemma LoneDescriptorIsDisjoint(hobs: seq<Hob>, h: Hob)
    requires forall i :: 0 <= i < |hobs| ==> !IsSystemMemory(hobs[i])
    ensures PairwiseDisjoint(hobs + [h])
  {
    var all := hobs + [h];
    assert forall i :: 0 <= i < |hobs| ==> all[i] == hobs[i];
  }

  /** Starting without system memory, MemoryPeim leaves a single descriptor around every safe region, so
      the region's memory is described once, free of the FD; the final assertion holds. */
  lemma RegionInsideOneDescriptor(hobs: seq<Hob>, p: Platform, base: nat)
    requires p.Valid() && p.regionSize > 0 && SafeRegion(p, base)
    requires forall i :: 0 <= i < |hobs| ==> !IsSystemMemory(hobs[i])
    ensures var after := Split(Declared(hobs, p), p);
            && PairwiseDisjoint(after)
            && exists j :: 0 <= j < |after| && IsSystemMemory(after[j])
                           && after[j].start <= base && base + p.regionSize <= after[j].start + after[j].length
    ensures FdFound(Declared(hobs, p), p)
  {
    hide PairwiseDisjoint, Overlap;
    var all := Declared(hobs, p);
    var k := |hobs|;
    assert all[k] == MainMemory(p);
    LoneDescriptorIsDisjoint(hobs, MainMemory(p));
    assert forall i :: 0 <= i < k ==> all[i] == hobs[i];
    SplitKeepsDisjoint(all, p);
    var after := Split(all, p);
    if FdInMemory(p) {
      assert ContainsFd(all[k], p);
      assert FdDescriptor(all, p) == k;
      var (d, added) := SplitDescriptor(all[k], p);
      assert after[k] == d;
      if p.fdBase > p.memoryBase && p.FdTop() <= base {
        assert |added| == 2;
        assert after[k + 2] == added[1];
      }
    } else {
      assert after[k] == MainMemory(p);
    }
  }
}
