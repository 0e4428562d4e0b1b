/** The SEC phase: the PPI list, the hand-off layout, and the migration of temporary RAM. */
module RamMigration {
  import opened Bytes

  const CPU_STACK_ALIGNMENT: nat := 16

  /** ALIGN_VALUE: the next multiple of the stack alignment. */
  function Align(n: nat): (r: nat)
    ensures n <= r < n + CPU_STACK_ALIGNMENT
    ensures r % CPU_STACK_ALIGNMENT == 0
  {
    n + (CPU_STACK_ALIGNMENT - n % CPU_STACK_ALIGNMENT) % CPU_STACK_ALIGNMENT
  }

  /** How the temporary RAM is split: the heap gets half, aligned, and the stack what is left. */
  function HeapSize(copySize: nat): (r: nat)
    ensures r % CPU_STACK_ALIGNMENT == 0 && copySize <= 2 * r + 1 && 2 * r < copySize + 2 * CPU_STACK_ALIGNMENT
  {
    Align(copySize / 2)
  }

  /** The rounding exceeds the whole exactly for sizes from 2 to 15. */
  lemma HeapFitsIff(copySize: nat)
    ensures HeapSize(copySize) <= copySize <==> copySize < 2 || copySize >= 16
  {
    if copySize >= 32 {
      assert HeapSize(copySize) < copySize / 2 + 16;
    }
  }

  lemma AlignHalf(q: nat)
    ensures Align(16 * q) == 16 * q
    ensures Align(16 * q + 8) == 16 * q + 16
  {
    hide Align;
    assert 16 * q <= Align(16 * q) < 16 * (q + 1);
    assert 16 * q < Align(16 * q + 8) < 16 * (q + 2);
  }

  /** For a size that is a multiple of the alignment, heap and stack are aligned, and the heap is the larger
      by at most one unit. */
  lemma AlignedSplit(copySize: nat)
    requires copySize % CPU_STACK_ALIGNMENT == 0
    ensures HeapSize(copySize) <= copySize
    ensures (copySize - HeapSize(copySize)) % CPU_STACK_ALIGNMENT == 0
    ensures 0 <= 2 * HeapSize(copySize) - copySize <= CPU_STACK_ALIGNMENT
  {
    hide Align;
    var q := copySize / 32;
    AlignHalf(q);
    assert copySize == 32 * q || copySize == 32 * q + 16;
  }

  type Ram = seq<Byte>

  /** Memory after the `n` bytes at `src` have been copied to `dst`; the ranges may overlap. */
  function Copied(m: Ram, dst: nat, src: nat, n: nat): (r: Ram)
    requires dst + n <= |m| && src + n <= |m|
    ensures |r| == |m|
  {
    m[..dst] + m[src..src + n] + m[dst + n..]
  }

  /** A copy that does not fit into memory fails an assertion and changes nothing. */
  method CopyMem(mem: array<Byte>, dst: nat, src: nat, n: nat) returns (ok: bool)
    modifies mem
    ensures ok <==> dst + n <= mem.Length && src + n <= mem.Length
    ensures ok ==> mem[..] == Copied(old(mem[..]), dst, src, n)
    ensures !ok ==> mem[..] == old(mem[..])
  {
    ok := dst + n <= mem.Length && src + n <= mem.Length;
    if ok {
      forall i | 0 <= i < n {
        mem[dst + i] := mem[src + i];
      }
    }
  }

  /** Memory after both copies: the stack goes first, below; then the heap, above it. */
  function Migrated(m: Ram, temporary: nat, permanent: nat, copySize: nat): Ram
    requires HeapSize(copySize) <= copySize
    requires temporary + copySize <= |m| && permanent + copySize <= |m|
  {
    var heap := HeapSize(copySize);
    var stack := copySize - heap;
    Copied(Copied(m, permanent, temporary + heap, stack), permanent + stack, temporary, heap)
  }

  /** The difference of the stack addresses, as an unsigned 64-bit number. */
  function StackDelta(temporary: nat, permanent: nat, copySize: nat): nat
    requires temporary + HeapSize(copySize) < TWO_64 && permanent < TWO_64
  {
    Subtract64(permanent, temporary + HeapSize(copySize))
  }

  /** When the heap's share exceeds the whole, the stack's share wraps around and its copy fails. */
  method SecTemporaryRamSupport(mem: array<Byte>, temporary: nat, permanent: nat, copySize: nat)
    returns (delta: Option<nat>)
    requires temporary + copySize <= mem.Length && permanent + copySize <= mem.Length <= TWO_64 - CPU_STACK_ALIGNMENT
    modifies mem
    ensures HeapSize(copySize) <= copySize ==>
              && mem[..] == Migrated(old(mem[..]), temporary, permanent, copySize)
              && delta == Some(StackDelta(temporary, permanent, copySize))
    ensures HeapSize(copySize) > copySize ==> mem[..] == old(mem[..]) && delta == None
  {
    hide Align, Copied;
    var heapSize := Align(copySize / 2);
    var stackSize := Subtract64(copySize, heapSize);
    var oldHeap, newHeap := temporary, Add64(permanent, stackSize);
    var oldStack, newStack := temporary + heapSize, permanent;
    var ok := CopyMem(mem, newStack, oldStack, stackSize);
    if ok {
      ok := CopyMem(mem, newHeap, oldHeap, heapSize);
    }
    delta := if ok then Some(Subtract64(newStack, oldStack)) else None;
  }

  /** The switch moves every address of the old stack to its copy. */
  lemma DeltaMapsStack(temporary: nat, permanent: nat, copySize: nat, k: nat)
    requires HeapSize(copySize) <= copySize && k < copySize - HeapSize(copySize)
    requires temporary + copySize < TWO_64 && permanent + copySize < TWO_64
    ensures Add64(temporary + HeapSize(copySize) + k, StackDelta(temporary, permanent, copySize)) == permanent + k
  {
    hide HeapSize;
  }

  // Intact areas.

  predicate RangesMiss(a: nat, n: nat, b: nat, m: nat) {
    n == 0 || m == 0 || a + n <= b || b + m <= a
  }

  /** The new stack's place does not touch the old heap. */
  predicate StackMissesHeap(temporary: nat, permanent: nat, copySize: nat)
    requires HeapSize(copySize) <= copySize
  {
    RangesMiss(permanent, copySize - HeapSize(copySize), temporary, HeapSize(copySize))
  }

  predicate StackArrives(m: Ram, temporary: nat, permanent: nat, copySize: nat)
    requires HeapSize(copySize) <= copySize
    requires temporary + copySize <= |m| && permanent + copySize <= |m|
  {
    var heap := HeapSize(copySize);
    var after := Migrated(m, temporary, permanent, copySize);
    after[permanent..permanent + copySize - heap] == m[temporary + heap..temporary + copySize]
  }

  predicate HeapArrives(m: Ram, temporary: nat, permanent: nat, copySize: nat)
    requires HeapSize(copySize) <= copySize
    requires temporary + copySize <= |m| && permanent + copySize <= |m|
  {
    var heap := HeapSize(copySize);
    var after := Migrated(m, temporary, permanent, copySize);
    after[permanent + copySize - heap..permanent + copySize] == m[temporary..temporary + heap]
  }

  lemma CopiedTarget(m: Ram, dst: nat, src: nat, n: nat)
    requires dst + n <= |m| && src + n <= |m|
    ensures Copied(m, dst, src, n)[dst..dst + n] == m[src..src + n]
  {
  }

  lemma CopiedElsewhere(m: Ram, dst: nat, src: nat, n: nat, a: nat, k: nat)
    requires dst + n <= |m| && src + n <= |m| && a + k <= |m| && RangesMiss(dst, n, a, k)
    ensures Copied(m, dst, src, n)[a..a + k] == m[a..a + k]
  {
  }

  lemma CopiedByte(m: Ram, dst: nat, src: nat, n: nat, i: nat)
    requires dst + n <= |m| && src + n <= |m| && dst <= i < dst + n
    ensures Copied(m, dst, src, n)[i] == m[src + (i - dst)]
  {
  }

  /** The stack always arrives. */
  lemma StackAlwaysArrives(m: Ram, temporary: nat, permanent: nat, copySize: nat)
    requires HeapSize(copySize) <= copySize
    requires temporary + copySize <= |m| && permanent + copySize <= |m|
    ensures StackArrives(m, temporary, permanent, copySize)
  {
    hide Align, HeapSize, Copied;
    var heap := HeapSize(copySize);
    var stack := copySize - heap;
    var m1 := Copied(m, permanent, temporary + heap, stack);
    CopiedTarget(m, permanent, temporary + heap, stack);
    CopiedElsewhere(m1, permanent + stack, temporary, heap, permanent, stack);
  }

  /** Nothing outside the permanent area changes. */
  lemma MigrationTouchesNothingElse(m: Ram, temporary: nat, permanent: nat, copySize: nat, i: nat)
    requires HeapSize(copySize) <= copySize
    requires temporary + copySize <= |m| && permanent + copySize <= |m|
    requires i < |m| && (i < permanent || permanent + copySize <= i)
    ensures Migrated(m, temporary, permanent, copySize)[i] == m[i]
  {
    hide Align, HeapSize;
  }

  lemma HeapArrivesIfMissed(m: Ram, temporary: nat, permanent: nat, copySize: nat)
    requires HeapSize(copySize) <= copySize
    requires temporary + copySize <= |m| && permanent + copySize <= |m|
    requires StackMissesHeap(temporary, permanent, copySize)
    ensures HeapArrives(m, temporary, permanent, copySize)
  {
    hide Align, HeapSize, Copied;
    var heap := HeapSize(copySize);
    var stack := copySize - heap;
    var m1 := Copied(m, permanent, temporary + heap, stack);
    CopiedElsewhere(m, permanent, temporary + heap, stack, temporary, heap);
    CopiedTarget(m1, permanent + stack, temporary, heap);
  }

  /** Where the new stack meets the old heap, a memory with one marked byte loses it. */
  lemma OverlapLosesHeap(size: nat, temporary: nat, permanent: nat, copySize: nat)
    requires HeapSize(copySize) <= copySize
    requires temporary + copySize <= size && permanent + copySize <= size
    requires !StackMissesHeap(temporary, permanent, copySize)
    ensures exists m: Ram :: |m| == size && !HeapArrives(m, temporary, permanent, copySize)
  {
    hide HeapSize, HeapArrives;
    var x := if permanent >= temporary then permanent else temporary;
    var m: Ram := seq(size, i => if i == x then 1 else 0);
    MarkedByteIsLost(m, x, temporary, permanent, copySize);
  }

  lemma MarkedByteIsLost(m: Ram, x: nat, temporary: nat, permanent: nat, copySize: nat)
    requires HeapSize(copySize) <= copySize
    requires temporary + copySize <= |m| && permanent + copySize <= |m|
    requires permanent <= x < permanent + copySize - HeapSize(copySize)
    requires temporary <= x < temporary + HeapSize(copySize)
    requires forall i :: 0 <= i < |m| ==> m[i] == if i == x then 1 else 0
    ensures !HeapArrives(m, temporary, permanent, copySize)
  {
    hide HeapSize, Copied;
    var heap := HeapSize(copySize);
    var stack := copySize - heap;
    var m1 := Copied(m, permanent, temporary + heap, stack);
    CopiedByte(m, permanent, temporary + heap, stack, x);
    CopiedTarget(m1, permanent + stack, temporary, heap);
    assert m1[x] == 0 && m1[temporary..temporary + heap][x - temporary] == m1[x];
    assert m[x] == 1 && m[temporary..temporary + heap][x - temporary] == m[x];
  }

  /** Both areas arrive for every content of memory exactly when the new stack misses the old heap. */
  lemma MigrationIsIntactIff(size: nat, temporary: nat, permanent: nat, copySize: nat)
    requires HeapSize(copySize) <= copySize
    requires temporary + copySize <= size && permanent + copySize <= size
    ensures (forall m: Ram :: |m| == size ==>
               StackArrives(m, temporary, permanent, copySize) && HeapArrives(m, temporary, permanent, copySize))
        <==> StackMissesHeap(temporary, permanent, copySize)
  {
    hide HeapArrives, StackArrives, StackMissesHeap, HeapSize;
    if StackMissesHeap(temporary, permanent, copySize) {
      forall m: Ram | |m| == size
        ensures StackArrives(m, temporary, permanent, copySize) && HeapArrives(m, temporary, permanent, copySize)
      {
        StackAlwaysArrives(m, temporary, permanent, copySize);
        HeapArrivesIfMissed(m, temporary, permanent, copySize);
      }
    } else {
      OverlapLosesHeap(size, temporary, permanent, copySize);
    }
  }

  /** The documentation announces an error only for a permanent area that starts below the temporary one and
      reaches into it. */
  predicate PassesDocumentedCheck(temporary: nat, permanent: nat, copySize: nat) {
    !(temporary > permanent && permanent + copySize > temporary)
  }

  /** The documented check, which the code does not make, would not be enough: of the calls that pass it,
      exactly those are intact whose permanent area starts below the temporary one or above its heap, or
      that have no heap or no stack. */
  lemma DocumentedCheckIsIntactIff(temporary: nat, permanent: nat, copySize: nat)
    requires HeapSize(copySize) <= copySize && PassesDocumentedCheck(temporary, permanent, copySize)
    ensures StackMissesHeap(temporary, permanent, copySize) <==>
            || temporary > permanent
            || temporary + HeapSize(copySize) <= permanent
            || HeapSize(copySize) == 0
            || HeapSize(copySize) == copySize
  {
    hide HeapSize;
  }

  /** Two areas that start close together pass the documented check, and the heap is lost. */
  lemma DocumentedCheckIsNotEnough()
    ensures PassesDocumentedCheck(0x1000, 0x1010, 64) && HeapSize(64) == 32 && !StackMissesHeap(0x1000, 0x1010, 64)
  {
  }

  // The hand-off to PEI.

  datatype HandOff = HandOff(temporaryRamBase: nat, temporaryRamSize: nat, peiBase: nat, peiSize: nat,
      stackBase: nat, stackSize: nat)

  /** The layout of the primary core's stack area, in 64-bit arithmetic: the PPI list, then the heap, then the
      stack.  It is a proper hand-off exactly when the list fits and the rest can be split. */
  method SecMain(areaBase: Uint64, areaSize: Uint32, ppiListSize: Uint32) returns (h: HandOff)
    requires areaBase + areaSize < TWO_64 && areaBase + Align(ppiListSize) < TWO_64
    ensures IsHandOff(h, areaBase, areaSize, ppiListSize)
       <==> Align(ppiListSize) <= areaSize && SplitFits(areaSize - Align(ppiListSize))
  {
    hide Align;
    var listSize := Align(ppiListSize);
    var base := areaBase + listSize;
    var size := Subtract64(areaSize, listSize);
    var peiSize := Align(size / 2);
    var stackBase := Add64(base, peiSize);
    h := HandOff(base, size, base, peiSize, stackBase, Subtract64(Add64(base, size), stackBase));
    AlignedSum(areaBase, listSize, peiSize);
  }

  predicate SplitFits(size: nat) {
    HeapSize(size) <= size
  }

  lemma AlignedSum(a: nat, b: nat, c: nat)
    requires b % CPU_STACK_ALIGNMENT == 0 && c % CPU_STACK_ALIGNMENT == 0
    ensures a % CPU_STACK_ALIGNMENT == 0 ==>
              (a + b) % CPU_STACK_ALIGNMENT == 0 && (a + b + c) % CPU_STACK_ALIGNMENT == 0
  {
  }

  /** The areas follow each other without gap or overlap, and the split is the one the migration makes. */
  predicate IsHandOff(h: HandOff, areaBase: nat, areaSize: nat, ppiListSize: nat) {
    && h.temporaryRamBase == h.peiBase == areaBase + Align(ppiListSize)
    && h.peiBase + h.peiSize == h.stackBase
    && h.stackBase + h.stackSize == areaBase + areaSize
    && h.temporaryRamSize == h.peiSize + h.stackSize
    && h.peiSize == HeapSize(h.temporaryRamSize)
    && (areaBase % CPU_STACK_ALIGNMENT == 0 ==>
          h.temporaryRamBase % CPU_STACK_ALIGNMENT == 0 && h.stackBase % CPU_STACK_ALIGNMENT == 0)
  }

  /** What PEI was told to be heap and stack is what arrives at the two ends of permanent memory. */
  lemma HandOffMigrates(m: Ram, h: HandOff, areaBase: nat, areaSize: nat, ppiListSize: nat, permanent: nat)
    requires IsHandOff(h, areaBase, areaSize, ppiListSize)
    requires areaBase + areaSize <= |m| && permanent + h.temporaryRamSize <= |m|
    requires StackMissesHeap(h.temporaryRamBase, permanent, h.temporaryRamSize)
    ensures var after := Migrated(m, h.temporaryRamBase, permanent, h.temporaryRamSize);
            && after[permanent..permanent + h.stackSize] == m[h.stackBase..h.stackBase + h.stackSize]
            && after[permanent + h.stackSize..permanent + h.temporaryRamSize] == m[h.peiBase..h.peiBase + h.peiSize]
  {
    hide HeapSize, Migrated;
    StackAlwaysArrives(m, h.temporaryRamBase, permanent, h.temporaryRamSize);
    HeapArrivesIfMissed(m, h.temporaryRamBase, permanent, h.temporaryRamSize);
  }

  // The PPI list.

  const PPI_SIZE: nat := 24
  const FLAG_BYTE: nat := 3

  /** A descriptor in memory: eight bytes of flags, then the addresses of the GUID and the interface. */
  type Ppi = s: seq<Byte> | |s| == PPI_SIZE witness seq(PPI_SIZE, _ => 0)

  predicate Terminates(d: Ppi) { d[FLAG_BYTE] >= 0x80 }

  /** The descriptor with EFI_PEI_PPI_DESCRIPTOR_TERMINATE_LIST, bit 31 of its flags, set. */
  function Flag(b: Byte): (r: Byte)
    ensures r >= 0x80 && r % 0x80 == b % 0x80
  {
    if b >= 0x80 then b else b + 0x80
  }

  function FlagPpi(d: Ppi): Ppi { d[FLAG_BYTE := Flag(d[FLAG_BYTE])] }

  /** The whole descriptors in a stretch of bytes; bytes left over are not one. */
  function Descriptors(b: seq<Byte>): seq<Ppi> {
    if |b| < PPI_SIZE then [] else [b[..PPI_SIZE]] + Descriptors(b[PPI_SIZE..])
  }

  function FlagLast(all: seq<Ppi>): seq<Ppi>
    requires all != []
  {
    all[..|all| - 1] + [FlagPpi(all[|all| - 1])]
  }

  /** The descriptors of the list. */
  function PpiList(common: seq<Byte>, platform: seq<Byte>, transfer: Option<Ppi>): seq<Ppi> {
    Descriptors(common + platform) + if transfer.Some? then [transfer.value] else []
  }

  /** What lies behind the list: bytes of the platform's list that are no whole descriptor, then old memory. */
  function BehindList(m: seq<Byte>, body: seq<Byte>, transfer: Option<Ppi>): seq<Byte>
    requires |body| + PPI_SIZE <= |m|
  {
    var n := |body| / PPI_SIZE * PPI_SIZE;
    if transfer.Some? then m[n + PPI_SIZE..] else body[n..] + m[|body|..]
  }

  method WriteBytes(mem: array<Byte>, dst: nat, bytes: seq<Byte>)
    requires dst + |bytes| <= mem.Length
    modifies mem
    ensures mem[..] == old(mem[..dst]) + bytes + old(mem[dst + |bytes|..])
  {
    forall i | 0 <= i < |bytes| {
      mem[dst + i] := bytes[i];
    }
  }

  method WriteBoth(mem: array<Byte>, common: seq<Byte>, platform: seq<Byte>)
    requires |common| + |platform| <= mem.Length
    modifies mem
    ensures mem[..] == common + platform + old(mem[|common + platform|..])
  {
    WriteBytes(mem, 0, common);
    WriteBytes(mem, |common|, platform);
  }

  method SetFlag(mem: array<Byte>, i: nat)
    requires i < mem.Length
    modifies mem
    ensures mem[..] == old(mem[..])[i := Flag(old(mem[..])[i])]
  {
    mem[i] := Flag(mem[i]);
  }

  /** For a platform list of any size: the common and platform descriptors one after the other, the transfer
      list's if there is one, and the last of them flagged. */
  method CreatePpiList(mem: array<Byte>, common: seq<Byte>, platform: seq<Byte>,
      transfer: Option<Ppi>) returns (size: nat)
    requires |common| >= PPI_SIZE && |common| + |platform| + PPI_SIZE <= mem.Length
    modifies mem
    ensures size == |common| + |platform| + if transfer.Some? then PPI_SIZE else 0
    ensures PpiList(common, platform, transfer) != []
    ensures mem[..] == Concat(FlagLast(PpiList(common, platform, transfer)))
                       + BehindList(old(mem[..]), common + platform, transfer)
  {
    hide Concat, Descriptors, Flag, FlagLast, BehindList, PpiList;
    WriteBoth(mem, common, platform);
    ghost var body := common + platform;
    ghost var m := old(mem[..]);
    var last := (|common| + |platform|) / PPI_SIZE - 1;
    size := |common| + |platform|;
    if transfer.Some? {
      last := last + 1;
      WriteBytes(mem, last * PPI_SIZE, transfer.value);
      size := size + PPI_SIZE;
    }
    ListInMemory(m, common, platform, transfer, mem[..]);
    FlagInMemory(PpiList(common, platform, transfer), BehindList(m, body, transfer), last);
    SetFlag(mem, last * PPI_SIZE + FLAG_BYTE);
  }

  lemma {:induction false} DescriptorsConcat(b: seq<Byte>)
    ensures |Descriptors(b)| == |b| / PPI_SIZE
    ensures Concat(Descriptors(b)) == b[..|b| / PPI_SIZE * PPI_SIZE]
    decreases |b|
  {
    if |b| >= PPI_SIZE {
      var t := b[PPI_SIZE..];
      DescriptorsConcat(t);
      var n := |t| / PPI_SIZE * PPI_SIZE;
      assert |b| / PPI_SIZE * PPI_SIZE == PPI_SIZE + n;
      assert b[..PPI_SIZE + n] == b[..PPI_SIZE] + t[..n];
      assert Descriptors(b)[1..] == Descriptors(t);
    }
  }

  lemma ListInMemory(m: seq<Byte>, common: seq<Byte>, platform: seq<Byte>, transfer: Option<Ppi>, now: seq<Byte>)
    requires |common| >= PPI_SIZE && |common| + |platform| + PPI_SIZE <= |m|
    requires var body := common + platform;
             var n := |body| / PPI_SIZE * PPI_SIZE;
             var before := body + m[|body|..];
             now == if transfer.Some? then before[..n] + transfer.value + before[n + PPI_SIZE..] else before
    ensures var all := PpiList(common, platform, transfer);
            && |all| == |common + platform| / PPI_SIZE + (if transfer.Some? then 1 else 0)
            && now == Concat(all) + BehindList(m, common + platform, transfer)
  {
    hide Concat, Descriptors;
    var body := common + platform;
    var n := |body| / PPI_SIZE * PPI_SIZE;
    DescriptorsConcat(body);
    AroundCut(body, m, n);
    if transfer.Some? {
      ConcatSplit(Descriptors(body), [transfer.value]);
      ConcatOne(transfer.value);
    } else {
      assert Descriptors(body) + [] == Descriptors(body);
    }
  }

  lemma AroundCut(body: seq<Byte>, m: seq<Byte>, n: nat)
    requires n <= |body| < n + PPI_SIZE <= |m| && |body| <= |m|
    ensures var all := body + m[|body|..];
            && all[..n] == body[..n]
            && all[n + PPI_SIZE..] == m[n + PPI_SIZE..]
            && all == body[..n] + (body[n..] + m[|body|..])
  {
  }

  lemma ConcatOne(s: seq<Byte>)
    ensures Concat([s]) == s
  {
    assert [s][1..] == [];
  }

  lemma {:induction false} ConcatLength(all: seq<Ppi>)
    ensures |Concat(all)| == |all| * PPI_SIZE
  {
    if all != [] {
      ConcatLength(all[1..]);
    }
  }

  lemma FlagInMemory(all: seq<Ppi>, rest: seq<Byte>, last: nat)
    requires last + 1 == |all|
    ensures |Concat(all)| == |all| * PPI_SIZE
    ensures var i := last * PPI_SIZE + FLAG_BYTE;
            (Concat(all) + rest)[i := Flag((Concat(all) + rest)[i])] == Concat(FlagLast(all)) + rest
  {
    hide Concat, Flag;
    ConcatLength(all);
    ConcatLength(all[..last]);
    var head, d := Concat(all[..last]), all[last];
    assert all == all[..last] + [d];
    ConcatSplit(all[..last], [d]);
    ConcatSplit(all[..last], [FlagPpi(d)]);
    ConcatOne(d);
    ConcatOne(FlagPpi(d));
    FlagInLast(head, d, rest);
  }

  lemma FlagInLast(head: seq<Byte>, d: Ppi, rest: seq<Byte>)
    ensures var m := head + d + rest;
            var i := |head| + FLAG_BYTE;
            m[i := Flag(m[i])] == head + FlagPpi(d) + rest
  {
    hide Flag;
  }

  lemma {:induction false} DescriptorsSplit(a: seq<Byte>, b: seq<Byte>)
    requires |a| % PPI_SIZE == 0
    ensures Descriptors(a + b) == Descriptors(a) + Descriptors(b)
    decreases |a|
  {
    if a == [] {
      assert a + b == b;
    } else {
      var d, t := a[..PPI_SIZE], a[PPI_SIZE..];
      assert (a + b)[..PPI_SIZE] == d && (a + b)[PPI_SIZE..] == t + b;
      DescriptorsSplit(t, b);
    }
  }

  /** The common descriptors come first, then the platform's, then the transfer list's; each is 24 bytes of its
      list, in order. */
  lemma PpiListOrder(common: seq<Byte>, platform: seq<Byte>, transfer: Option<Ppi>)
    requires |common| % PPI_SIZE == 0 && |platform| % PPI_SIZE == 0
    ensures Concat(PpiList(common, platform, transfer))
         == common + platform + if transfer.Some? then transfer.value else []
    ensures var n := |common| / PPI_SIZE;
            n <= |PpiList(common, platform, transfer)| && Concat(PpiList(common, platform, transfer)[..n]) == common
  {
    hide Concat, Descriptors;
    var d, e := Descriptors(common), Descriptors(platform);
    DescriptorsSplit(common, platform);
    DescriptorsConcat(common);
    DescriptorsConcat(common + platform);
    assert (d + e)[..|d|] == d;
    WholeLength(|common|, |platform|);
    assert (common + platform)[..|common + platform|] == common + platform;
    assert common[..|common|] == common;
    if transfer.Some? {
      ConcatSplit(d + e, [transfer.value]);
      ConcatOne(transfer.value);
      assert (d + e + [transfer.value])[..|d|] == d;
    } else {
      assert d + e + [] == d + e;
      assert common + platform + [] == common + platform;
    }
  }

  lemma WholeLength(m: nat, n: nat)
    requires m % PPI_SIZE == 0 && n % PPI_SIZE == 0
    ensures m / PPI_SIZE * PPI_SIZE == m && (m + n) / PPI_SIZE * PPI_SIZE == m + n
  {
  }

  /** What a reader of the list sees: every descriptor up to and including the first flagged one. */
  function ReadList(m: seq<Byte>): seq<Ppi> {
    if |m| < PPI_SIZE then []
    else
      var d: Ppi := m[..PPI_SIZE];
      if Terminates(d) then [d] else [d] + ReadList(m[PPI_SIZE..])
  }

  lemma ReadOne(d: Ppi, rest: seq<Byte>)
    ensures ReadList(d + rest) == if Terminates(d) then [d] else [d] + ReadList(rest)
  {
    var m := d + rest;
    assert m[..PPI_SIZE] == d && m[PPI_SIZE..] == rest;
  }

  /** A reader sees the whole list, whatever follows it, exactly when no earlier descriptor is flagged. */
  lemma {:induction false} ReaderSeesListIff(all: seq<Ppi>, rest: seq<Byte>)
    requires all != []
    ensures ReadList(Concat(FlagLast(all)) + rest) == FlagLast(all)
       <==> forall i :: 0 <= i < |all| - 1 ==> !Terminates(all[i])
    decreases |all|
  {
    hide Flag, ReadList, Terminates, Concat;
    var flagged := FlagLast(all);
    var tail := flagged[1..];
    ConcatSplit([flagged[0]], tail);
    ConcatOne(flagged[0]);
    assert flagged == [flagged[0]] + tail;
    Regroup(flagged[0], Concat(tail), rest);
    ReadOne(flagged[0], Concat(tail) + rest);
    if |all| == 1 {
      FlagTerminates(all[0]);
    } else {
      assert tail == FlagLast(all[1..]);
      ReaderSeesListIff(all[1..], rest);
      assert forall i :: 0 < i < |all| ==> all[i] == all[1..][i - 1];
      if !Terminates(all[0]) {
        var r := ReadList(Concat(tail) + rest);
        assert ([all[0]] + r)[1..] == r;
      }
    }
  }

  lemma FlagTerminates(d: Ppi)
    ensures Terminates(FlagPpi(d))
  {
  }
}
