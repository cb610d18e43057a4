/** `KernelAllocPara` of kernel/config.c: memory the kernel takes at boot from the area after
    its own, in low or in upper memory. */
module KernelAlloc {
  import opened McbChain
  import opened McbPolicy
  import opened MemMgr

  /** `mumcb_init` makes an area of the system. */
  const SYSTEM_PSP: nat := 8

  /** The system's area `j` grown by `n` paragraphs taken from the free area after it. */
  function Pushed(bs: seq<Area>, j: nat, n: nat): (r: seq<Area>)
    requires j + 1 < |bs| && n <= bs[j + 1].size
    ensures |r| == |bs| && r[..j] == bs[..j] && r[j + 2..] == bs[j + 2..]
    ensures r[j] == Area(bs[j].addr, bs[j].size + n, bs[j].psp)
    ensures r[j + 1] == Area(bs[j + 1].addr + n, bs[j + 1].size - n, FREE_PSP) && r[j + 1].Free()
  {
    var s, b := bs[j], bs[j + 1];
    Replaced(bs, j, j + 2, [Area(s.addr, s.size + n, s.psp), Area(b.addr + n, b.size - n, FREE_PSP)])
  }

  /** The headers after that; the old place of the second one now holds `sub`. */
  function PushedMem(m: seq<Mcb>, start: nat, base: nat, n: nat, sub: Mcb): (r: seq<Mcb>)
    requires start < base && base + n < |m| && n > 0 && n <= m[base].size
    ensures |r| == |m|
  {
    m[base + n := Mcb(m[base].kind, FREE_PSP, m[base].size - n)]
     [start := m[start].(size := m[start].size + n)]
     [base := sub]
  }

  lemma PushedStored(m: seq<Mcb>, bs: seq<Area>, first: nat, end: nat, root: nat, link: nat, j: nat, n: nat, sub: Mcb)
    requires Tiling(bs, first, end) && Stored(m, bs, CutsFor(end, root, link)) && HasRoot(bs, root) && end <= |m|
    requires j + 1 < |bs| && bs[j + 1].Free() && 0 < n <= bs[j + 1].size
    ensures var s, b, ds := bs[j], bs[j + 1], Pushed(bs, j, n);
            && s.addr < b.addr && b.addr + n < |m| && m[b.addr].size == b.size
            && Tiling(ds, first, end) && HasRoot(ds, root) && OwnersBut(bs, ds, s.addr)
            && Stored(PushedMem(m, s.addr, b.addr, n, sub), ds, CutsFor(end, root, link))
  {
    var s, b, cuts := bs[j], bs[j + 1], CutsFor(end, root, link);
    assert Adjacent(bs, j) && s in bs && b in bs;
    Bounds(bs, first, end, j + 1);
    NoCutInside(bs, first, end, root, link, j + 1, b.addr + n);
    NotACut(bs, first, end, root, link, j + 1);
    PushedHeaders(m, s, b, cuts, n, sub);
    hide *;
    var r := PushedAreas(s, b, n);
    PushedIsReplaced(bs, j, n);
    TilingReplaced(bs, first, end, j, j + 2, r);
    StoredReplaced(m, PushedMem(m, s.addr, b.addr, n, sub), bs, first, end, cuts, j, j + 2, r);
    PushedOwners(bs, j, n);
    RootAfter(bs, Pushed(bs, j, n), first, end, root, j);
  }

  /** The two areas after that. */
  function PushedAreas(s: Area, b: Area, n: nat): (r: seq<Area>)
    requires n <= b.size
    ensures |r| == 2
  {
    [Area(s.addr, s.size + n, s.psp), Area(b.addr + n, b.size - n, FREE_PSP)]
  }

  lemma PushedIsReplaced(bs: seq<Area>, j: nat, n: nat)
    requires j + 1 < |bs| && n <= bs[j + 1].size
    ensures Pushed(bs, j, n) == Replaced(bs, j, j + 2, PushedAreas(bs[j], bs[j + 1], n))
  {
  }

  lemma PushedHeaders(m: seq<Mcb>, s: Area, b: Area, cuts: set<nat>, n: nat, sub: Mcb)
    requires s.End() == b.addr && b.End() <= |m| && m[s.addr] == Header(s, cuts) && m[b.addr] == Header(b, cuts)
    requires 0 < n <= b.size && b.addr !in cuts && b.addr + n !in cuts
    ensures m[b.addr].size == b.size && s.addr < b.addr && b.addr + n < |m|
    ensures Tiling(PushedAreas(s, b, n), s.addr, b.End())
    ensures Stored(PushedMem(m, s.addr, b.addr, n, sub), PushedAreas(s, b, n), cuts)
    ensures ChangedIn(m, PushedMem(m, s.addr, b.addr, n, sub), s.addr, b.End())
  {
    var r := PushedAreas(s, b, n);
    assert r[0].End() == r[1].addr && Adjacent(r, 0);
  }

  /** No chain ends where a free area begins. */
  lemma NotACut(bs: seq<Area>, first: nat, end: nat, root: nat, link: nat, k: nat)
    requires Tiling(bs, first, end) && HasRoot(bs, root) && k < |bs| && bs[k].Free()
    ensures bs[k].addr !in CutsFor(end, root, link)
  {
    Bounds(bs, first, end, k);
    if root != NO_UMB {
      var b: Area :| b in bs && b.addr == root && !b.Free();
      var i :| 0 <= i < |bs| && bs[i] == b;
      if i < k {
        Ordered(bs, first, end, i, k);
      } else if k < i {
        Ordered(bs, first, end, k, i);
      }
    }
  }

  lemma PushedOwners(bs: seq<Area>, j: nat, n: nat)
    requires j + 1 < |bs| && bs[j + 1].Free() && n <= bs[j + 1].size
    ensures OwnersBut(bs, Pushed(bs, j, n), bs[j].addr)
  {
    var s, b := bs[j], bs[j + 1];
    var r := [Area(s.addr, s.size + n, s.psp), Area(b.addr + n, b.size - n, FREE_PSP)];
    forall a: Area | !a.Free() && a.addr != s.addr ensures a in bs <==> a in Pushed(bs, j, n) {
      InReplaced(bs, j, j + 2, r, a);
      assert bs[j..j + 2] == [s, b];
    }
  }

  class KernelAllocator {
    const mm: MemoryManager
    var baseSeg: nat
    var umbBaseSeg: nat
    var umbStart: nat
    var umbState: nat

    /** No upper memory has been found yet. */
    constructor (mm: MemoryManager)
      ensures this.mm == mm && baseSeg == mm.first && umbBaseSeg == umbStart == umbState == 0
    {
      this.mm, baseSeg, umbBaseSeg, umbStart, umbState := mm, mm.first, 0, 0, 0;
    }

    /** Area `j` at `start` is free and the kernel's to take, or is the system's and the free area that the
        kernel takes from follows at `base`; it has room for `n` paragraphs and their header. */
    ghost predicate HasRoom(j: nat, start: nat, base: nat, n: nat)
      reads mm
    {
      && j < |mm.blocks| && mm.blocks[j].addr == start
      && if base == start then mm.blocks[j].Free() && mm.blocks[j].size >= n + 2
         else !mm.blocks[j].Free() && j + 1 < |mm.blocks| && mm.blocks[j + 1].addr == base && mm.blocks[j + 1].Free()
              && mm.blocks[j + 1].size >= n + 1
    }

    function Base(mode: int): nat
      reads this
    {
      if umbState == 1 && mode != 0 then umbBaseSeg else baseSeg
    }

    function Start(mode: int): nat
      reads this
    {
      if umbState == 1 && mode != 0 then umbStart else mm.first
    }

    /** Makes a system area of no paragraphs at the start of a free area. */
    method CreateSystemArea(start: nat, ghost j: nat)
      requires mm.Valid() && j < |mm.blocks| && mm.blocks[j].addr == start && mm.blocks[j].Free()
      requires mm.blocks[j].size > 0
      modifies mm.mem, mm`blocks
      ensures mm.Valid() && j + 1 < |mm.blocks| && OwnersBut(old(mm.blocks), mm.blocks, start)
      ensures mm.blocks[j] == Area(start, 0, SYSTEM_PSP) && !mm.blocks[j].Free()
      ensures mm.blocks[j + 1] == Area(start + 1, old(mm.blocks)[j].size - 1, FREE_PSP) && mm.blocks[j + 1].Free()
    {
      hide *;
      McbMarks();
      mm.Parts();
      mm.At(j);
      mm.CutsAre(0);
      ghost var m, bs, b := mm.mem[..], mm.blocks, mm.blocks[j];
      SystemArea(m, bs, mm.first, mm.end, mm.root, mm.link, j);
      var base := start + 1;
      mm.mem[base] := Mcb(mm.mem[start].kind, FREE_PSP, mm.mem[start].size - 1);
      mm.mem[start] := Mcb(MCB_NORMAL, SYSTEM_PSP, 0);
      assert mm.mem[..] == m[start := Mcb(MCB_NORMAL, SYSTEM_PSP, 0)]
                            [start + 1 := Mcb(m[start].kind, FREE_PSP, b.size - 1)];
      mm.blocks := Replaced(bs, j, j + 1, [Area(start, 0, SYSTEM_PSP), Area(start + 1, b.size - 1, FREE_PSP)]);
      InPlace(bs, j, [Area(start, 0, SYSTEM_PSP), Area(start + 1, b.size - 1, FREE_PSP)]);
      mm.Whole();
    }

    /** Moves the border between the system's area and the free one up by `n` paragraphs. */
    method Push(start: nat, base: nat, n: nat, kind: nat, ghost j: nat)
      requires mm.Valid() && n > 0 && j + 1 < |mm.blocks| && mm.blocks[j].addr == start && mm.blocks[j + 1].addr == base
      requires mm.blocks[j + 1].Free() && n <= mm.blocks[j + 1].size && !mm.blocks[j].Free()
      modifies mm.mem, mm`blocks
      ensures mm.Valid() && OwnersBut(old(mm.blocks), mm.blocks, start)
      ensures j + 1 < |mm.blocks| && mm.blocks[j].addr == start
      ensures mm.blocks[j].End() == base + n == mm.blocks[j + 1].addr
      ensures mm.blocks[j + 1].Free() && !mm.blocks[j].Free()
      ensures mm.blocks[j + 1].End() == base + old(mm.blocks)[j + 1].size + 1
    {
      hide *;
      McbMarks();
      mm.Parts();
      mm.At(j);
      mm.At(j + 1);
      mm.CutsAre(0);
      ghost var bs, m := mm.blocks, mm.mem[..];
      PushedStored(m, bs, mm.first, mm.end, mm.root, mm.link, j, n, Mcb(kind, base + 1, n - 1));
      mm.mem[base + n] := Mcb(mm.mem[base].kind, FREE_PSP, mm.mem[base].size - n);
      mm.mem[start] := mm.mem[start].(size := mm.mem[start].size + n);
      mm.mem[base] := Mcb(kind, base + 1, n - 1);
      PushedIs(m, start, base, n, Mcb(kind, base + 1, n - 1));
      assert mm.mem[..] == PushedMem(m, start, base, n, Mcb(kind, base + 1, n - 1));
      mm.blocks := Pushed(bs, j, n);
      mm.Whole();
      mm.At(j);
      mm.At(j + 1);
    }

    /** `KernelAllocPara`: `nPara` paragraphs of the kind `kind` for the kernel; `j` is its area. */
    method KernelAllocPara(nPara: nat, kind: nat, mode: int, ghost j: nat) returns (para: nat)
      requires mm.Valid() && HasRoom(j, Start(mode), Base(mode), nPara)
      modifies this`baseSeg, this`umbBaseSeg, mm.mem, mm`blocks
      ensures mm.Valid() && OwnersBut(old(mm.blocks), mm.blocks, Start(mode)) && Start(mode) == old(Start(mode))
      ensures Base(mode) == para + nPara && old(Base(mode)) < para
      ensures j + 1 < |mm.blocks| && mm.blocks[j].addr == Start(mode)
      ensures mm.blocks[j].End() == Base(mode) == mm.blocks[j + 1].addr
      ensures mm.blocks[j + 1].Free() && !mm.blocks[j].Free()
      ensures mm.blocks[j + 1].End() == old(FreeEnd(j, Start(mode), Base(mode)))
      ensures umbState == 1 && mode != 0 ==> baseSeg == old(baseSeg)
      ensures !(umbState == 1 && mode != 0) ==> umbBaseSeg == old(umbBaseSeg)
    {
      hide *;
      RoomParts(j, mode, nPara);
      var low := umbState != 1 || mode == 0;
      var base, start := if low then baseSeg else umbBaseSeg, if low then mm.first else umbStart;
      ghost var was := mm.blocks;
      OwnersButTransitive(was, was, was, start);
      if base == start {
        CreateSystemArea(start, j);
        base := base + 1;
      }
      ghost var bs := mm.blocks;
      var n := nPara + 1;
      Push(start, base, n, kind, j);
      OwnersButTransitive(was, bs, mm.blocks, start);
      para := base + 1;
      base := base + n;
      if low {
        baseSeg := base;
      } else {
        umbBaseSeg := base;
      }
      BaseIs(mode);
    }

    /** Where the free memory that the kernel takes from ends. */
    ghost function FreeEnd(j: nat, start: nat, base: nat): nat
      requires HasRoom(j, start, base, 0)
      reads mm
    {
      if base == start then mm.blocks[j].End() else mm.blocks[j + 1].End()
    }

    lemma BaseIs(mode: int)
      ensures Base(mode) == if umbState == 1 && mode != 0 then umbBaseSeg else baseSeg
      ensures Start(mode) == if umbState == 1 && mode != 0 then umbStart else mm.first
    {
    }

    lemma RoomParts(j: nat, mode: int, n: nat)
      requires HasRoom(j, Start(mode), Base(mode), n)
      ensures j < |mm.blocks| && mm.blocks[j].addr == Start(mode) && SYSTEM_PSP == 8
      ensures var base, start := Base(mode), Start(mode);
              base == (if umbState == 1 && mode != 0 then umbBaseSeg else baseSeg)
              && start == (if umbState == 1 && mode != 0 then umbStart else mm.first)
              && HasRoom(j, start, base, 0)
              && if base == start then
                   mm.blocks[j].Free() && mm.blocks[j].size >= n + 2
                   && FreeEnd(j, start, base) == mm.blocks[j].addr + mm.blocks[j].size + 1
                 else !mm.blocks[j].Free() && j + 1 < |mm.blocks| && mm.blocks[j + 1].addr == base
                      && mm.blocks[j + 1].Free()
                      && mm.blocks[j + 1].size >= n + 1 && FreeEnd(j, start, base) == base + mm.blocks[j + 1].size + 1
    {
    }
  }

  lemma InPlace(bs: seq<Area>, j: nat, news: seq<Area>)
    requires j < |bs| && |news| == 2
    ensures var r := Replaced(bs, j, j + 1, news);
            j + 1 < |r| && r[j] == news[0] && r[j + 1] == news[1] && (news[1].psp == FREE_PSP ==> r[j + 1].Free())
            && (news[0].psp == SYSTEM_PSP ==> !r[j].Free())
  {
  }

  lemma PushedIs(m: seq<Mcb>, start: nat, base: nat, n: nat, sub: Mcb)
    requires start < base && base + n < |m| && n > 0 && n <= m[base].size
    ensures PushedMem(m, start, base, n, sub) ==
            m[base + n := Mcb(m[base].kind, FREE_PSP, m[base].size - n)]
              [start := m[start].(size := m[start].size + n)][base := sub]
  {
  }

  /** A free area split into the system's, of no paragraphs, and the rest. */
  lemma SystemArea(m: seq<Mcb>, bs: seq<Area>, first: nat, end: nat, root: nat, link: nat, j: nat)
    requires Tiling(bs, first, end) && Stored(m, bs, CutsFor(end, root, link)) && HasRoot(bs, root) && end <= |m|
    requires j < |bs| && bs[j].Free() && bs[j].size > 0
    ensures var b := bs[j];
            var ds := Replaced(bs, j, j + 1, [Area(b.addr, 0, SYSTEM_PSP), Area(b.addr + 1, b.size - 1, FREE_PSP)]);
            && b.addr + 1 < |m| && Tiling(ds, first, end) && HasRoot(ds, root) && OwnersBut(bs, ds, b.addr)
            && Stored(m[b.addr := Mcb(MCB_NORMAL, SYSTEM_PSP, 0)]
                       [b.addr + 1 := Mcb(m[b.addr].kind, FREE_PSP, b.size - 1)], ds, CutsFor(end, root, link))
  {
    hide *;
    McbMarks();
    Bounds(bs, first, end, j);
    SystemIs(m, bs[j]);
    CarvedStored(m, bs, first, end, root, link, j, 0, 0, SYSTEM_PSP);
    var ds := Replaced(bs, j, j + 1, Carved(bs[j], 0, 0, SYSTEM_PSP));
    GivenBut(bs, ds, Given(bs[j], 0, 0, SYSTEM_PSP));
  }

  lemma SystemIs(m: seq<Mcb>, b: Area)
    requires b.size > 0 && b.End() <= |m|
    ensures b.addr + 1 < |m| && SYSTEM_PSP != FREE_PSP
    ensures Carved(b, 0, 0, SYSTEM_PSP) == [Area(b.addr, 0, SYSTEM_PSP), Area(b.addr + 1, b.size - 1, FREE_PSP)]
    ensures CarvedMem(m, b, 0, 0, SYSTEM_PSP) ==
            m[b.addr := Mcb(MCB_NORMAL, SYSTEM_PSP, 0)][b.addr + 1 := Mcb(m[b.addr].kind, FREE_PSP, b.size - 1)]
    ensures Given(b, 0, 0, SYSTEM_PSP).addr == b.addr
  {
  }

  lemma GivenBut(bs: seq<Area>, cs: seq<Area>, a: Area)
    requires forall b: Area :: !b.Free() ==> (b in cs <==> b in bs || b == a)
    ensures OwnersBut(bs, cs, a.addr)
  {
  }
}
