/** The memory manager of kernel/memmgr.c: areas of conventional and upper memory allocated,
    freed, resized, joined and linked through the headers in memory itself. */
module MemMgr {
  import opened ErrorCodes
  import opened McbChain
  import opened McbPolicy

  const NO_UMB: nat := 0xFFFF
  const PARAGRAPHS: nat := 0x1_0000

  predicate McbValid(h: Mcb) {
    h.size != 0xFFFF && McbFreeable(h)
  }

  predicate McbFreeable(h: Mcb) {
    h.kind == MCB_NORMAL || h.kind == MCB_LAST
  }

  lemma KindIs(h: Mcb)
    ensures McbFreeable(h) <==> h.kind in {0x4D, 0x5A}
    ensures McbValid(h) <==> h.kind in {0x4D, 0x5A} && h.size != 0xFFFF
  {
  }

  /** The block that begins upper memory is in use. */
  ghost predicate HasRoot(bs: seq<Area>, root: nat) {
    root != NO_UMB ==> exists b: Area :: b in bs && b.addr == root && !b.Free()
  }

  /** Where the chains end: upper memory that is not linked has a chain of its own. */
  function CutsFor(end: nat, root: nat, link: nat): set<nat> {
    if root == NO_UMB || link % 2 == 1 then {end} else {root, end}
  }

  lemma RootStays(bs: seq<Area>, cs: seq<Area>, root: nat)
    requires HasRoot(bs, root) && forall b: Area :: !b.Free() && b.addr == root && b in bs ==> b in cs
    ensures HasRoot(cs, root)
  {
  }

  /** The root stays when an area takes in free ones after it. */
  lemma RootJoined(bs: seq<Area>, cs: seq<Area>, k: nat, root: nat)
    requires HasRoot(bs, root) && Joined(bs, cs, k)
    ensures HasRoot(cs, root)
  {
    JoinedOwners(bs, cs, k);
    if root != NO_UMB {
      var b: Area :| b in bs && b.addr == root && !b.Free();
      assert cs[k] in cs;
      assert b == bs[k] || b in cs;
    }
  }

  /** A chain ends only where an area ends. */
  lemma NoCutInside(bs: seq<Area>, first: nat, end: nat, root: nat, link: nat, i: nat, c: nat)
    requires Tiling(bs, first, end) && HasRoot(bs, root) && i < |bs| && bs[i].addr < c < bs[i].End()
    ensures c !in CutsFor(end, root, link)
  {
    Bounds(bs, first, end, i);
    if root != NO_UMB {
      var b: Area :| b in bs && b.addr == root && !b.Free();
      var j :| 0 <= j < |bs| && bs[j] == b;
      if i < j {
        Ordered(bs, first, end, i, j);
      } else if j < i {
        Ordered(bs, first, end, j, i);
      }
    }
  }

  /** The headers of the `d` areas after area `k` are marked as no longer in the chain, and free. */
  ghost predicate Stale(m: seq<Mcb>, bs: seq<Area>, k: nat, d: int) {
    && 0 <= d && k + 1 + d <= |bs|
    && forall b :: b in bs[k + 1..k + 1 + d] ==>
        b.addr < |m| && m[b.addr].psp == FREE_PSP && m[b.addr].size == 0xFFFF && McbFreeable(m[b.addr])
  }

  lemma NothingStale(m: seq<Mcb>, bs: seq<Area>, k: nat)
    requires k < |bs|
    ensures Stale(m, bs, k, 0)
  {
  }

  lemma MoreStale(m: seq<Mcb>, m': seq<Mcb>, bs: seq<Area>, cs: seq<Area>, first: nat, end: nat, k: nat, h: Mcb)
    requires Tiling(bs, first, end) && Joined(bs, cs, k) && Stale(m, bs, k, |bs| - |cs|) && k + 1 < |cs|
    requires cs[k].addr < |m| && cs[k + 1].addr < |m| && McbFreeable(m[cs[k + 1].addr])
    requires m[cs[k + 1].addr].psp == FREE_PSP
    requires m' == m[cs[k].addr := h][cs[k + 1].addr := m[cs[k + 1].addr].(size := 0xFFFF)]
    ensures Stale(m', bs, k, |bs| - |cs| + 1)
  {
    var d := |bs| - |cs|;
    assert bs[k + 1 + d] == bs[k + 1 + d..][0] == cs[k + 1..][0] == cs[k + 1];
    forall b | b in bs[k + 1..k + 2 + d]
      ensures b.addr < |m'| && m'[b.addr].psp == FREE_PSP && m'[b.addr].size == 0xFFFF && McbFreeable(m'[b.addr])
    {
      var t :| k + 1 <= t < k + 2 + d && bs[t] == b;
      Ordered(bs, first, end, k, t);
      if t < k + 1 + d {
        assert b == bs[k + 1..k + 1 + d][t - k - 1];
        Ordered(bs, first, end, t, k + 1 + d);
      }
    }
  }

  /** Memory after area `b` has been carved up. */
  function CarvedMem(m: seq<Mcb>, b: Area, size: nat, mode: int, psp: nat): (r: seq<Mcb>)
    requires b.End() <= |m| && (mode == LARGEST || size <= b.size)
  {
    var p, h := b.addr, m[b.addr];
    if mode == LARGEST || size == b.size then m[p := h.(psp := psp)]
    else if TakesEnd(mode) then
      m[p := Mcb(MCB_NORMAL, FREE_PSP, b.size - size - 1)][p + b.size - size := Mcb(h.kind, psp, size)]
    else
      m[p := Mcb(MCB_NORMAL, psp, size)][p + size + 1 := Mcb(h.kind, FREE_PSP, b.size - size - 1)]
  }

  lemma CarvedHeaders(m: seq<Mcb>, b: Area, cuts: set<nat>, size: nat, mode: int, psp: nat)
    requires b.End() <= |m| && m[b.addr] == Header(b, cuts) && (mode == LARGEST || size <= b.size)
    requires forall c :: b.addr < c < b.End() ==> c !in cuts
    ensures ChangedIn(m, CarvedMem(m, b, size, mode, psp), b.addr, b.End())
    ensures Stored(CarvedMem(m, b, size, mode, psp), Carved(b, size, mode, psp), cuts)
  {
    if mode != LARGEST && size != b.size {
      var rest := b.size - size - 1;
      assert Area(b.addr, size, psp).End() !in cuts && Area(b.addr, rest, FREE_PSP).End() !in cuts;
    }
  }

  lemma CarvedStored(m: seq<Mcb>, bs: seq<Area>, first: nat, end: nat, root: nat, link: nat, f: nat, size: nat,
                     mode: int, psp: nat)
    requires Tiling(bs, first, end) && Stored(m, bs, CutsFor(end, root, link)) && HasRoot(bs, root) && end <= |m|
    requires f < |bs| && bs[f].Free() && (mode == LARGEST || size <= bs[f].size) && psp != FREE_PSP
    ensures var ds := Replaced(bs, f, f + 1, Carved(bs[f], size, mode, psp));
            && Tiling(ds, first, end) && HasRoot(ds, root) && bs[f].End() <= |m|
            && Stored(CarvedMem(m, bs[f], size, mode, psp), ds, CutsFor(end, root, link))
            && forall b: Area :: !b.Free() ==> (b in ds <==> b in bs || b == Given(bs[f], size, mode, psp))
  {
    var b, cuts := bs[f], CutsFor(end, root, link);
    var r, ds := Carved(b, size, mode, psp), Replaced(bs, f, f + 1, Carved(b, size, mode, psp));
    Bounds(bs, first, end, f);
    CarvedFills(b, size, mode, psp);
    TilingReplaced(bs, first, end, f, f + 1, r);
    assert b in bs;
    forall c | b.addr < c < b.End() ensures c !in cuts {
      NoCutInside(bs, first, end, root, link, f, c);
    }
    CarvedHeaders(m, b, cuts, size, mode, psp);
    hide *;
    McbMarks();
    StoredReplaced(m, CarvedMem(m, b, size, mode, psp), bs, first, end, cuts, f, f + 1, r);
    forall a: Area | !a.Free() ensures a in ds <==> a in bs || a == Given(b, size, mode, psp) {
      InReplaced(bs, f, f + 1, r, a);
      assert bs[f..f + 1] == [b];
    }
    RootStays(bs, ds, root);
  }

  /** Upper memory, from the block at `root` on, has no free area large enough. */
  ghost predicate UpperFull(bs: seq<Area>, root: nat, size: nat) {
    exists i: nat :: i < |bs| && bs[i].addr == root && NoPairs(bs, i, |bs|) && NoneFits(bs, i, |bs|, size)
  }

  /** An area that a later search finds is then not in upper memory. */
  lemma FoundLow(bs: seq<Area>, cs: seq<Area>, first: nat, end: nat, root: nat, size: nat, s: nat, e: nat, f: nat)
    requires Tiling(bs, first, end) && Tiling(cs, first, end) && SameOwners(bs, cs)
    requires UpperFull(bs, root, size) && HasRoot(cs, root) && root != NO_UMB
    requires s <= f <= e < |cs| && cs[s].addr <= root && NoPairs(cs, s, e + 1) && Fit(cs[f], size)
    ensures cs[f].End() <= root
  {
    var i: nat :| i < |bs| && bs[i].addr == root && NoPairs(bs, i, |bs|) && NoneFits(bs, i, |bs|, size);
    var b: Area :| b in cs && b.addr == root && !b.Free();
    var j :| 0 <= j < |cs| && cs[j] == b;
    if f < j {
      Ordered(cs, first, end, f, j);
    } else {
      if j < s {
        Ordered(cs, first, end, j, s);
      }
      RunsUnique(bs, cs, first, end, i, j, e + 1, f);
      var q :| 0 <= q < |bs| && bs[q] == cs[f];
      if j < f {
        Ordered(cs, first, end, j, f);
      }
      if q < i {
        Ordered(bs, first, end, q, i);
      }
      assert Fit(bs[q], size);
    }
  }

  /** A search that began at the root and reached the end has shown upper memory full. */
  lemma UpperSeen(bs: seq<Area>, first: nat, end: nat, root: nat, link: nat, size: nat, s: nat, e: nat)
    requires Tiling(bs, first, end) && s <= e < |bs| && bs[s].addr == root && root != NO_UMB && link % 2 == 1
    requires bs[e].End() in CutsFor(end, root, link) && NoPairs(bs, s, e + 1) && NoneFits(bs, s, e + 1, size)
    ensures UpperFull(bs, root, size)
  {
    if e + 1 < |bs| {
      Ordered(bs, first, end, e, |bs| - 1);
    }
  }

  lemma SameMem(m: seq<Mcb>, lo: nat, hi: nat)
    ensures ChangedIn(m, m, lo, hi)
  {
  }

  lemma NoBit(access: int)
    requires HasBit(access, 0x80)
    ensures access >= 0x80
  {
  }

  /** The areas after the one at `para`, if there is one, was freed. */
  function Freed(bs: seq<Area>, para: nat): (r: seq<Area>)
    ensures |r| == |bs|
  {
    seq(|bs|, i requires 0 <= i < |bs| => if bs[i].addr == para then bs[i].(psp := FREE_PSP) else bs[i])
  }

  /** The root stays in use unless it is what was freed. */
  lemma FreedRoot(bs: seq<Area>, root: nat, para: nat)
    requires HasRoot(bs, root)
    ensures HasRoot(Freed(bs, para), root) <==> para != root || root == NO_UMB
  {
    var cs := Freed(bs, para);
    if root != NO_UMB && para != root {
      var b: Area :| b in bs && b.addr == root && !b.Free();
      var i :| 0 <= i < |bs| && bs[i] == b;
      assert cs[i] == b;
    } else if root != NO_UMB {
      forall c: Area | c in cs && c.addr == root ensures c.Free() {
        var i :| 0 <= i < |cs| && cs[i] == c;
        assert bs[i].addr == para;
      }
    }
  }

  lemma FreedStored(m: seq<Mcb>, bs: seq<Area>, first: nat, end: nat, root: nat, cuts: set<nat>, para: nat)
    requires Tiling(bs, first, end) && Stored(m, bs, cuts) && HasRoot(bs, root) && para < |m|
    ensures var m', cs := m[para := m[para].(psp := FREE_PSP)], Freed(bs, para);
            && Tiling(cs, first, end) && Stored(m', cs, cuts) && ChangedIn(m, m', para, para + 1)
            && (HasRoot(cs, root) <==> para != root || root == NO_UMB)
    ensures forall k :: 0 <= k < |bs| && bs[k].addr == para ==> Freed(bs, para) == bs[k := bs[k].(psp := FREE_PSP)]
    ensures (forall k :: 0 <= k < |bs| ==> bs[k].addr != para) ==> Freed(bs, para) == bs
  {
    var m', cs := m[para := m[para].(psp := FREE_PSP)], Freed(bs, para);
    forall i | 0 <= i < |cs| - 1 ensures Adjacent(cs, i) {
      assert Adjacent(bs, i);
    }
    forall c | c in cs ensures c.addr < |m'| && m'[c.addr] == Header(c, cuts) {
      var i :| 0 <= i < |cs| && cs[i] == c;
      assert bs[i] in bs;
    }
    FreedRoot(bs, root, para);
    forall k | 0 <= k < |bs| && bs[k].addr == para ensures cs == bs[k := bs[k].(psp := FREE_PSP)] {
      forall i | 0 <= i < |bs| && bs[i].addr == para ensures i == k {
        SameArea(bs, first, end, i, k);
      }
    }
  }

  /** The same areas are in use but for the one at `addr`. */
  ghost predicate OwnersBut(bs: seq<Area>, cs: seq<Area>, addr: nat) {
    forall b: Area :: !b.Free() && b.addr != addr ==> (b in bs <==> b in cs)
  }

  lemma OwnersButTransitive(a: seq<Area>, b: seq<Area>, c: seq<Area>, addr: nat)
    ensures OwnersBut(a, a, addr)
    ensures OwnersBut(a, b, addr) && OwnersBut(b, c, addr) ==> OwnersBut(a, c, addr)
    ensures OwnersBut(a, b, addr) && SameOwners(b, c) ==> OwnersBut(a, c, addr)
  {
  }

  lemma JoinedBut(bs: seq<Area>, cs: seq<Area>, k: nat)
    requires Joined(bs, cs, k)
    ensures k < |cs| <= |bs| && cs[k].addr == bs[k].addr && cs[k].psp == bs[k].psp && bs[..k] == cs[..k]
    ensures OwnersBut(bs, cs, bs[k].addr) && cs[k].size >= bs[k].size && (cs[k].Free() <==> bs[k].Free())
  {
    JoinedOwners(bs, cs, k);
  }

  /** An area cut down to `size` paragraphs, the rest free. */
  function Shrunk(bs: seq<Area>, k: nat, size: nat): (r: seq<Area>)
    requires k < |bs| && size < bs[k].size
    ensures |r| == |bs| + 1 && r[..k] == bs[..k] && r[k] == Area(bs[k].addr, size, bs[k].psp)
    ensures r[k + 1] == Area(bs[k].addr + size + 1, bs[k].size - size - 1, FREE_PSP) && r[k + 1].Free()
  {
    var b := bs[k];
    Replaced(bs, k, k + 1, [Area(b.addr, size, b.psp), Area(b.addr + size + 1, b.size - size - 1, FREE_PSP)])
  }

  lemma ShrunkStored(m: seq<Mcb>, bs: seq<Area>, first: nat, end: nat, root: nat, link: nat, k: nat, size: nat)
    requires Tiling(bs, first, end) && Stored(m, bs, CutsFor(end, root, link)) && HasRoot(bs, root) && end <= |m|
    requires k < |bs| && size < bs[k].size
    ensures var b, ds := bs[k], Shrunk(bs, k, size);
            && b.End() == b.addr + b.size + 1 <= |m|
            && Tiling(ds, first, end) && HasRoot(ds, root) && OwnersBut(bs, ds, b.addr)
            && Stored(m[b.addr := Mcb(MCB_NORMAL, b.psp, size)]
                       [b.addr + size + 1 := Mcb(m[b.addr].kind, FREE_PSP, b.size - size - 1)],
                      ds, CutsFor(end, root, link))
  {
    hide *;
    McbMarks();
    var b, cuts := bs[k], CutsFor(end, root, link);
    var r := [Area(b.addr, size, b.psp), Area(b.addr + size + 1, b.size - size - 1, FREE_PSP)];
    ShrunkHeaders(m, bs, first, end, root, link, k, size);
    var m' := m[b.addr := Mcb(MCB_NORMAL, b.psp, size)]
                [b.addr + size + 1 := Mcb(m[b.addr].kind, FREE_PSP, b.size - size - 1)];
    TilingReplaced(bs, first, end, k, k + 1, r);
    StoredReplaced(m, m', bs, first, end, cuts, k, k + 1, r);
    ShrunkOwners(bs, k, size);
    RootAfter(bs, Shrunk(bs, k, size), first, end, root, k);
  }

  /** The two headers of an area that was cut in two. */
  lemma ShrunkHeaders(m: seq<Mcb>, bs: seq<Area>, first: nat, end: nat, root: nat, link: nat, k: nat, size: nat)
    requires Tiling(bs, first, end) && Stored(m, bs, CutsFor(end, root, link)) && HasRoot(bs, root) && end <= |m|
    requires k < |bs| && size < bs[k].size
    ensures var b, ds := bs[k], Shrunk(bs, k, size);
            var r := [Area(b.addr, size, b.psp), Area(b.addr + size + 1, b.size - size - 1, FREE_PSP)];
            && b.End() == b.addr + b.size + 1 <= |m| && b in bs && Shrunk(bs, k, size) == Replaced(bs, k, k + 1, r)
            && Tiling(r, b.addr, b.End())
            && var m' := m[b.addr := Mcb(MCB_NORMAL, b.psp, size)]
                [b.addr + size + 1 := Mcb(m[b.addr].kind, FREE_PSP, b.size - size - 1)];
               ChangedIn(m, m', b.addr, b.End()) && Stored(m', r, CutsFor(end, root, link))
  {
    Bounds(bs, first, end, k);
    var b, cuts := bs[k], CutsFor(end, root, link);
    assert b in bs;
    NoCutInside(bs, first, end, root, link, k, b.addr + size + 1);
    hide HasRoot, CutsFor;
    TwoPieces(m, b, cuts, size);
  }

  lemma TwoPieces(m: seq<Mcb>, b: Area, cuts: set<nat>, size: nat)
    requires b.End() <= |m| && m[b.addr] == Header(b, cuts) && size < b.size && b.addr + size + 1 !in cuts
    ensures var r := [Area(b.addr, size, b.psp), Area(b.addr + size + 1, b.size - size - 1, FREE_PSP)];
            var m' := m[b.addr := Mcb(MCB_NORMAL, b.psp, size)]
                [b.addr + size + 1 := Mcb(m[b.addr].kind, FREE_PSP, b.size - size - 1)];
            Tiling(r, b.addr, b.End()) && ChangedIn(m, m', b.addr, b.End()) && Stored(m', r, cuts)
  {
    var r := [Area(b.addr, size, b.psp), Area(b.addr + size + 1, b.size - size - 1, FREE_PSP)];
    assert Adjacent(r, 0);
  }

  lemma ShrunkOwners(bs: seq<Area>, k: nat, size: nat)
    requires k < |bs| && size < bs[k].size
    ensures OwnersBut(bs, Shrunk(bs, k, size), bs[k].addr)
  {
    var b := bs[k];
    var r := [Area(b.addr, size, b.psp), Area(b.addr + size + 1, b.size - size - 1, FREE_PSP)];
    forall a: Area | !a.Free() && a.addr != b.addr ensures a in bs <==> a in Shrunk(bs, k, size) {
      InReplaced(bs, k, k + 1, r, a);
      assert bs[k..k + 1] == [b];
    }
  }

  lemma RootAfter(bs: seq<Area>, cs: seq<Area>, first: nat, end: nat, root: nat, k: nat)
    requires Tiling(bs, first, end) && HasRoot(bs, root) && k < |bs| && k < |cs| && OwnersBut(bs, cs, bs[k].addr)
    requires cs[k].addr == bs[k].addr && (cs[k].psp == bs[k].psp || cs[k].psp != FREE_PSP)
    ensures HasRoot(cs, root)
  {
    if root != NO_UMB {
      var b: Area :| b in bs && b.addr == root && !b.Free();
      var j :| 0 <= j < |bs| && bs[j] == b;
      if b.addr == bs[k].addr {
        SameArea(bs, first, end, j, k);
        assert cs[k] in cs;
      }
    }
  }

  /** An area given a new owner. */
  lemma OwnedStored(m: seq<Mcb>, bs: seq<Area>, first: nat, end: nat, root: nat, cuts: set<nat>, k: nat, psp: nat)
    requires Tiling(bs, first, end) && Stored(m, bs, cuts) && HasRoot(bs, root) && k < |bs| && bs[k].addr < |m|
    requires psp != FREE_PSP
    ensures var p, cs := bs[k].addr, bs[k := bs[k].(psp := psp)];
            && Tiling(cs, first, end) && Stored(m[p := m[p].(psp := psp)], cs, cuts) && HasRoot(cs, root)
            && OwnersBut(bs, cs, p)
  {
    var p, cs := bs[k].addr, bs[k := bs[k].(psp := psp)];
    var m' := m[p := m[p].(psp := psp)];
    forall i | 0 <= i < |cs| - 1 ensures Adjacent(cs, i) {
      assert Adjacent(bs, i);
    }
    forall c | c in cs ensures c.addr < |m'| && m'[c.addr] == Header(c, cuts) {
      var i :| 0 <= i < |cs| && cs[i] == c;
      assert bs[i] in bs;
      if i != k && bs[i].addr == p {
        SameArea(bs, first, end, i, k);
      }
    }
    forall b: Area | !b.Free() && b.addr != p ensures b in bs <==> b in cs {
      if b in bs {
        var i :| 0 <= i < |bs| && bs[i] == b;
        assert cs[i] == b;
      }
      if b in cs {
        var i :| 0 <= i < |cs| && cs[i] == b;
        assert bs[i] == b;
      }
    }
    RootAfter(bs, cs, first, end, root, k);
  }

  /** Memory with the header at `a` made one in the middle of a chain, or the last of one. */
  function Relinked(m: seq<Mcb>, a: nat, link: nat): seq<Mcb>
    requires a < |m|
  {
    m[a := m[a].(kind := if link == 1 then MCB_NORMAL else MCB_LAST)]
  }

  /** Linking upper memory in, or taking it out again, changes the header before its root. */
  lemma RelinkStored(m: seq<Mcb>, bs: seq<Area>, first: nat, end: nat, root: nat, k: nat, link: nat)
    requires Tiling(bs, first, end) && root != NO_UMB && root < end && link <= 1
    requires k < |bs| && bs[k].End() == root && bs[k].addr < |m| && Stored(m, bs, CutsFor(end, root, 1 - link))
    ensures Stored(Relinked(m, bs[k].addr, link), bs, CutsFor(end, root, link))
  {
    forall b | b in bs
      ensures b.addr < |m| && Relinked(m, bs[k].addr, link)[b.addr] == Header(b, CutsFor(end, root, link))
    {
      var i :| 0 <= i < |bs| && bs[i] == b;
      if i < k {
        Ordered(bs, first, end, i, k);
      } else if k < i {
        Ordered(bs, first, end, k, i);
      }
    }
  }

  /** Linking and unlinking again, with nothing in between, restores memory exactly. */
  lemma RelinkBack(m: seq<Mcb>, bs: seq<Area>, end: nat, root: nat, k: nat, link: nat)
    requires root != NO_UMB && root != end && link <= 1
    requires k < |bs| && bs[k].End() == root && bs[k].addr < |m| && Stored(m, bs, CutsFor(end, root, link))
    ensures Relinked(Relinked(m, bs[k].addr, 1 - link), bs[k].addr, link) == m
  {
    assert bs[k] in bs;
  }

  /** The areas of owner `ps` among the first `k` are free. */
  function Released(bs: seq<Area>, ps: nat, k: nat): (r: seq<Area>)
    ensures |r| == |bs|
  {
    seq(|bs|, i requires 0 <= i < |bs| => if i < k && bs[i].psp == ps then bs[i].(psp := FREE_PSP) else bs[i])
  }

  lemma ReleaseStep(bs: seq<Area>, ps: nat, k: nat)
    requires k < |bs|
    ensures Released(bs, ps, 0) == bs
    ensures var r := Released(bs, ps, k);
            r[k] == bs[k] && Released(bs, ps, k + 1) == if bs[k].psp == ps then r[k := r[k].(psp := FREE_PSP)] else r
  {
    assert Released(bs, ps, 0) == bs;
    var r := Released(bs, ps, k);
    assert Released(bs, ps, k + 1) == if bs[k].psp == ps then r[k := r[k].(psp := FREE_PSP)] else r;
  }

  lemma AllReleased(bs: seq<Area>, ps: nat)
    requires ps != FREE_PSP
    ensures forall b :: b in Released(bs, ps, |bs|) ==> b.psp != ps
    ensures forall b: Area :: b.psp != ps && b in bs ==> b in Released(bs, ps, |bs|)
    ensures forall b: Area :: b.psp != ps && !b.Free() ==> (b in Released(bs, ps, |bs|) ==> b in bs)
  {
    var r := Released(bs, ps, |bs|);
    forall b | b in bs && b.psp != ps ensures b in r {
      var i :| 0 <= i < |bs| && bs[i] == b;
      assert r[i] == b;
    }
  }

  class MemoryManager {
    const mem: array<Mcb>
    /** `first_mcb`, and the paragraph after all memory. */
    const first: nat
    const end: nat
    /** `uppermem_root`. */
    const root: nat
    var link: nat
    var accessMode: int
    var cuPsp: nat
    /** The areas of memory, in order. */
    ghost var blocks: seq<Area>

    /** Memory at boot: `mcb_init` makes one free area of everything from the kernel to the top of RAM, in kilobytes;
        there is no upper memory. */
    constructor Boot(first: nat, ramTop: nat, cuPsp: nat)
      requires 0 < first < ramTop * 64 <= PARAGRAPHS
      ensures Valid() && fresh(mem) && this.first == first && end == ramTop * 64 && root == NO_UMB && link == 0
      ensures accessMode == 0
      ensures blocks == [Area(first, end - first - 1, FREE_PSP)] && this.cuPsp == cuPsp
    {
      this.first, end, root, link, accessMode, this.cuPsp := first, ramTop * 64, NO_UMB, 0, 0, cuPsp;
      mem := new Mcb[PARAGRAPHS](i => Mcb(if i == first then MCB_LAST else 0, FREE_PSP,
                                          if i == first then ramTop * 64 - first - 1 else 0));
      blocks := [Area(first, ramTop * 64 - first - 1, FREE_PSP)];
    }

    /** Memory as it was left, with upper memory from `root` on; `blocks` are the areas that its headers tell of. */
    constructor Over(mem: array<Mcb>, first: nat, end: nat, root: nat, link: nat, cuPsp: nat, ghost blocks: seq<Area>)
      requires mem.Length == PARAGRAPHS && 0 < first < end <= PARAGRAPHS && (root != NO_UMB ==> first < root < end)
      requires link <= 1
      requires Tiling(blocks, first, end) && Stored(mem[..], blocks, CutsFor(end, root, link)) && HasRoot(blocks, root)
      ensures Valid() && this.mem == mem && this.first == first && this.end == end && this.root == root
      ensures this.link == link && accessMode == 0
      ensures this.blocks == blocks && this.cuPsp == cuPsp
    {
      this.mem, this.first, this.end, this.root, this.link, accessMode, this.cuPsp
        := mem, first, end, root, link, 0, cuPsp;
      this.blocks := blocks;
    }

    function Cuts(): set<nat>
      reads this`link
    {
      CutsFor(end, root, link)
    }

    /** The areas tile memory from `first` to `end`, and the headers in it say so. */
    ghost predicate Valid()
      reads this, mem
    {
      && mem.Length == PARAGRAPHS && 0 < first < end <= PARAGRAPHS
      && Tiling(blocks, first, end) && Stored(mem[..], blocks, Cuts())
      && HasRoot(blocks, root) && (root != NO_UMB ==> first < root < end) && link <= 1
    }

    lemma Parts()
      requires Valid()
      ensures mem.Length == PARAGRAPHS == 0x1_0000 && |mem[..]| == 0x1_0000 && 0 < first < end <= 0x1_0000
      ensures Tiling(blocks, first, end) && Stored(mem[..], blocks, Cuts()) && HasRoot(blocks, root)
      ensures root != NO_UMB ==> first < root < end
      ensures |blocks| > 0 && link <= 1
    {
    }

    lemma Whole()
      requires mem.Length == PARAGRAPHS && 0 < first < end <= PARAGRAPHS && (root != NO_UMB ==> first < root < end)
      requires link <= 1
      requires Tiling(blocks, first, end) && Stored(mem[..], blocks, Cuts()) && HasRoot(blocks, root)
      ensures Valid()
    {
    }

    /** The header of area `k`, and where the next one is. */
    lemma At(k: nat)
      requires Valid() && k < |blocks|
      ensures first <= blocks[k].addr && blocks[k].End() <= end <= 0x1_0000 == mem.Length && blocks[k].addr > 0
      ensures var h := mem[blocks[k].addr];
              McbValid(h) && h.psp == blocks[k].psp && h.size == blocks[k].size
              && blocks[k].End() == blocks[k].addr + h.size + 1
              && (h.kind == MCB_LAST <==> blocks[k].End() in Cuts())
              && (h.kind == MCB_NORMAL <==> blocks[k].End() !in Cuts())
      ensures k + 1 < |blocks| ==> blocks[k + 1].addr == blocks[k].End()
      ensures blocks[k].End() !in Cuts() ==> k + 1 < |blocks| && blocks[k].End() < 0x1_0000
      ensures blocks[k].Free() <==> blocks[k].psp == 0
    {
      Bounds(blocks, first, end, k);
      assert blocks[k] in blocks;
      assert mem[..][blocks[k].addr] == Header(blocks[k], Cuts());
      if k + 1 < |blocks| {
        assert Adjacent(blocks, k);
        Bounds(blocks, first, end, k + 1);
      }
    }

    method Put(p: nat, h: Mcb)
      requires p < mem.Length
      modifies mem
      ensures mem[..] == old(mem[..])[p := h]
    {
      mem[p] := h;
    }

    /** One turn of the loop of `joinMCBs`, whose area `k` was area `k` of `was`. */
    method JoinOnce(p: nat, ghost k: nat, ghost was: seq<Area>) returns (more: bool)
      requires Valid() && Tiling(was, first, end) && HasRoot(was, root) && Joined(was, blocks, k) && k < |blocks|
      requires p == blocks[k].addr < mem.Length
      requires Stale(mem[..], was, k, |was| - |blocks|) && mem[p].kind == MCB_NORMAL
      modifies mem, this`blocks
      ensures Valid() && Joined(was, blocks, k) && k < |blocks| && p == blocks[k].addr
      ensures Stale(mem[..], was, k, |was| - |blocks|)
      ensures if more then |blocks| < |old(blocks)|
              else blocks == old(blocks) && k + 1 < |blocks| && !blocks[k + 1].Free()
    {
      hide *;
      McbMarks();
      At(k);
      At(k + 1);
      Parts();
      var q := p + mem[p].size + 1;
      if mem[q].psp != FREE_PSP {
        return false;
      }
      if !McbValid(mem[q]) {
        assert false;
      }
      ghost var m, bs := mem[..], blocks;
      JoinStep(m, was, bs, first, end, Cuts(), k);
      ghost var h := Mcb(mem[q].kind, mem[p].psp, mem[p].size + mem[q].size + 1);
      Put(p, Mcb(mem[q].kind, mem[p].psp, mem[p].size + mem[q].size + 1));
      assert mem[q] == m[q];
      Put(q, mem[q].(size := 0xFFFF));
      MoreStale(m, mem[..], was, bs, first, end, k, h);
      blocks := Replaced(bs, k, k + 2, [Merged(bs[k], bs[k + 1])]);
      RootJoined(was, blocks, k, root);
      Whole();
      JoinedBut(was, blocks, k);
      JoinedBut(was, bs, k);
      more := true;
    }

    /** `joinMCBs`: takes the free areas after one into it. */
    method JoinMcbs(p: nat, ghost k: nat) returns (r: int)
      requires Valid() && k < |blocks| && p == blocks[k].addr
      modifies mem, this`blocks
      ensures Valid() && r == SUCCESS && Joined(old(blocks), blocks, k)
      ensures blocks[k].End() in Cuts() || (k + 1 < |blocks| && !blocks[k + 1].Free())
      ensures Stale(mem[..], old(blocks), k, |old(blocks)| - |blocks|)
    {
      hide *;
      Codes();
      McbMarks();
      ghost var was := blocks;
      JoinedSame(was, k);
      NothingStale(mem[..], was, k);
      At(k);
      Parts();
      while mem[p].kind == MCB_NORMAL
        invariant Valid() && Joined(was, blocks, k) && k < |blocks| && blocks[k].addr == p < mem.Length
        invariant Stale(mem[..], was, k, |was| - |blocks|)
        decreases |blocks|
      {
        var more := JoinOnce(p, k, was);
        At(k);
        if !more {
          break;
        }
      }
      At(k);
      r := SUCCESS;
    }

    /** Where a search for memory begins: at upper memory when it is linked and the mode asks for it. */
    predicate FromRoot(size: nat, mode: int)
      reads this`link, this`accessMode
    {
      && link % 2 == 1 && root != NO_UMB && (mode != LARGEST || size == 0xFFFF)
      && var tmpmode := if mode == LARGEST then accessMode else mode;
         HasBit(tmpmode, 0x40) || HasBit(tmpmode, 0x80)
    }

    function StartSeg(size: nat, mode: int): nat
      reads this`link, this`accessMode
    {
      if FromRoot(size, mode) then root else first
    }

    lemma StartIndex(size: nat, mode: int) returns (s: nat)
      requires Valid()
      ensures s < |blocks| && blocks[s].addr == StartSeg(size, mode)
    {
      s := 0;
      if FromRoot(size, mode) {
        var b: Area :| b in blocks && b.addr == root && !b.Free();
        s :| 0 <= s < |blocks| && blocks[s] == b;
      }
    }

    /** One search of `DosMemAlloc` from area `s` on, which joins the free areas it passes. `found` and `biggest`
        are 0 for "none"; `e` is the last area looked at. */
    method Search(size: nat, mode: int, start: nat, ghost s: nat)
      returns (found: nat, biggest: nat, stopped: bool, ghost e: nat, ghost f: int, ghost g: int)
      requires Valid() && s < |blocks| && start == blocks[s].addr
      modifies mem, this`blocks
      ensures Valid() && SameOwners(old(blocks), blocks) && s <= e < |blocks| && blocks[..s] == old(blocks)[..s]
      ensures blocks[s].addr == start
      ensures NoPairs(blocks, s, e + 1) && Seen(PolicyOf(mode), blocks, s, e + 1, size, f, g)
      ensures -1 <= f <= e && -1 <= g <= e
      ensures found == (if f < 0 then 0 else blocks[f].addr) && biggest == (if g < 0 then 0 else blocks[g].addr)
      ensures stopped ==> f >= 0 && PolicyOf(mode) == FirstFit
      ensures !stopped ==> blocks[e].End() in Cuts() && (PolicyOf(mode) == FirstFit ==> f < 0)
    {
      hide *;
      McbMarks();
      ghost var was := blocks;
      var p, policy := start, PolicyOf(mode);
      found, biggest, stopped, f, g := 0, 0, false, -1, -1;
      ghost var k := s;
      NoPairsStart(was, s);
      SeenNothing(policy, was, s, size);
      while true
        invariant Valid() && s <= k < |blocks| && p == blocks[k].addr
        invariant SameOwners(was, blocks) && blocks[..s] == was[..s] && blocks[s].addr == start && NoPairs(blocks, s, k)
        invariant Seen(policy, blocks, s, k, size, f, g) && -1 <= f < k && -1 <= g < k
        invariant found == (if f < 0 then 0 else blocks[f].addr) && biggest == (if g < 0 then 0 else blocks[g].addr)
        invariant policy == FirstFit ==> f < 0
        decreases |blocks| - k
      {
        ghost var before := blocks;
        JoinHere(p, s, k);
        OwnersTransitive(was, before, blocks);
        SeenKept(policy, before, blocks, s, k, size, f, g);
        Prefix(before, blocks, k, f, g);
        Prefix(before, blocks, k, s, s);
        Shorter(before, blocks, s, k);
        found, biggest, stopped, f, g := Weigh(policy, size, p, found, biggest, s, k, f, g);
        At(k);
        if stopped || mem[p].kind == MCB_LAST {
          break;
        }
        p := p + mem[p].size + 1;
        k := k + 1;
      }
      e := k;
    }

    /** The search at area `k`: if it is free, the free areas after it are joined to it. */
    method JoinHere(p: nat, ghost s: nat, ghost k: nat)
      requires Valid() && s <= k < |blocks| && p == blocks[k].addr && NoPairs(blocks, s, k)
      modifies mem, this`blocks
      ensures Valid() && k < |blocks| <= |old(blocks)| && p == blocks[k].addr
      ensures SameOwners(old(blocks), blocks) && blocks[..k] == old(blocks)[..k] && NoPairs(blocks, s, k + 1)
    {
      hide *;
      Codes();
      McbMarks();
      ghost var before := blocks;
      At(k);
      Parts();
      if !McbValid(mem[p]) {
        assert false;
      }
      NoPairsStart(before, s);
      if mem[p].psp == FREE_PSP {
        var joined := JoinMcbs(p, k);
        if joined != SUCCESS {
          assert false;
        }
        NoPairsJoined(before, blocks, s, k);
        JoinedOwners(before, blocks, k);
      }
      NoPairsAtEnd(s, k);
    }

    /** No free area follows a free area that has been joined. */
    lemma NoPairsAtEnd(s: nat, k: nat)
      requires Valid() && k < |blocks| && NoPairs(blocks, s, k)
      requires blocks[k].Free() ==> blocks[k].End() in Cuts() || (k + 1 < |blocks| && !blocks[k + 1].Free())
      ensures NoPairs(blocks, s, k + 1)
    {
      if k + 1 < |blocks| {
        assert Adjacent(blocks, k);
        Bounds(blocks, first, end, k + 1);
        if blocks[k].End() in Cuts() {
          RootInUse(k + 1);
        }
      }
    }

    lemma RootInUse(k: nat)
      requires Valid() && k < |blocks| && blocks[k].addr == root != NO_UMB
      ensures !blocks[k].Free()
    {
      var b: Area :| b in blocks && b.addr == root && !b.Free();
      var j :| 0 <= j < |blocks| && blocks[j] == b;
      SameArea(blocks, first, end, j, k);
    }

    /** The body of the search for the area `p`: is it the biggest so far, is it the one to take? */
    method Weigh(policy: Policy, size: nat, p: nat, found0: nat, biggest0: nat, ghost s: nat, ghost k: nat,
                 ghost f0: int, ghost g0: int)
      returns (found: nat, biggest: nat, stopped: bool, ghost f: int, ghost g: int)
      requires Valid() && s <= k < |blocks| && p == blocks[k].addr
      requires Seen(policy, blocks, s, k, size, f0, g0) && -1 <= f0 < k && -1 <= g0 < k
      requires (policy == FirstFit ==> f0 < 0)
      requires found0 == (if f0 < 0 then 0 else blocks[f0].addr) && biggest0 == (if g0 < 0 then 0 else blocks[g0].addr)
      ensures Seen(policy, blocks, s, k + 1, size, f, g) && -1 <= f <= k && -1 <= g <= k
      ensures found == (if f < 0 then 0 else blocks[f].addr) && biggest == (if g < 0 then 0 else blocks[g].addr)
      ensures if stopped then f >= 0 && policy == FirstFit else policy == FirstFit ==> f < 0
    {
      hide *;
      McbMarks();
      At(k);
      Parts();
      SeenStep(policy, blocks, s, k, size, f0, g0);
      FitIs(blocks[k], size);
      found, biggest, stopped, f, g := found0, biggest0, false, f0, g0;
      if g >= 0 {
        At(g);
      }
      if f >= 0 {
        At(f);
      }
      if mem[p].psp == FREE_PSP {
        if biggest == 0 || mem[biggest].size < mem[p].size {
          biggest, g := p, k;
        }
        if mem[p].size >= size {
          match policy
          case LastFit =>
            found, f := p, k;
          case LargestFit =>
          case BestFit =>
            if found == 0 || mem[found].size > mem[p].size {
              found, f := p, k;
            }
          case FirstFit =>
            found, f, stopped := p, k, true;
        }
      }
    }

    /** The end of `DosMemAlloc`: area `f` is cut to size and given to the current process. */
    method Carve(size: nat, mode: int, foundSeg: nat, ghost f: nat) returns (para: nat)
      requires Valid() && cuPsp != FREE_PSP && f < |blocks| && foundSeg == blocks[f].addr && blocks[f].Free()
      requires mode == LARGEST || size <= blocks[f].size
      modifies mem, this`blocks
      ensures Valid() && blocks == Replaced(old(blocks), f, f + 1, Carved(old(blocks)[f], size, mode, cuPsp))
      ensures para == Given(old(blocks)[f], size, mode, cuPsp).addr
      ensures forall b: Area :: !b.Free() ==>
                (b in blocks <==> b in old(blocks) || b == Given(old(blocks)[f], size, mode, cuPsp))
    {
      hide *;
      At(f);
      Parts();
      ghost var b := blocks[f];
      CutsIs();
      CarvedStored(mem[..], blocks, first, end, root, link, f, size, mode, cuPsp);
      para := CutHeaders(foundSeg, size, mode, b);
      blocks := Replaced(blocks, f, f + 1, Carved(b, size, mode, cuPsp));
      CutsIs();
      Whole();
    }

    /** The headers that takes. */
    method CutHeaders(foundSeg: nat, size: nat, mode: int, ghost b: Area) returns (found: nat)
      requires mem.Length == 0x1_0000 && b.addr == foundSeg && b.End() <= mem.Length && mem[b.addr].size == b.size
      requires mode == LARGEST || size <= b.size
      modifies mem
      ensures mem[..] == CarvedMem(old(mem[..]), b, size, mode, cuPsp)
      ensures found == Given(b, size, mode, cuPsp).addr
    {
      hide *;
      McbMarks();
      ghost var m := mem[..];
      CarvedMemIs(m, b, size, mode, cuPsp);
      found := foundSeg;
      if mode != LARGEST && size != mem[found].size {
        var p;
        if TakesEnd(mode) {
          p := found;
          mem[p] := mem[p].(size := mem[p].size - (size + 1));
          found := p + mem[p].size + 1;
          mem[found] := mem[found].(kind := mem[p].kind);
          mem[p] := mem[p].(kind := MCB_NORMAL);
        } else {
          p := found + size + 1;
          mem[p] := mem[p].(kind := mem[found].kind, size := mem[found].size - size - 1);
          mem[found] := mem[found].(kind := MCB_NORMAL);
        }
        mem[p] := mem[p].(psp := FREE_PSP);
        mem[found] := mem[found].(size := size);
      }
      mem[found] := mem[found].(psp := cuPsp);
      assert mem[..] == CarvedMem(m, b, size, mode, cuPsp);
    }

    /** One search, and which area is to be cut, if any. */
    method Choose(size: nat, mode: int)
      returns (found: bool, foundSeg: nat, asize: nat, ghost s: nat, ghost e: nat, ghost f: nat)
      requires Valid()
      modifies mem, this`blocks
      ensures Valid() && SameOwners(old(blocks), blocks) && s <= e < |blocks|
      ensures blocks[s].addr == StartSeg(size, mode) && NoPairs(blocks, s, e + 1)
      ensures found ==>
                && s <= f <= e && foundSeg == blocks[f].addr && blocks[f].Free() && blocks[f].size >= size
                && Picked(PolicyOf(mode), blocks, s, e + 1, size, f)
                && (PolicyOf(mode) != FirstFit ==> blocks[e].End() in Cuts() && blocks[f].size > 0)
                && (mode == LARGEST ==> asize == blocks[f].size)
      ensures !found ==>
                && blocks[e].End() in Cuts() && LargestIs(blocks, s, e + 1, asize)
                && (NoneFits(blocks, s, e + 1, size)
                    || (size == 0 && PolicyOf(mode) != FirstFit && Picked(PolicyOf(mode), blocks, s, e + 1, 0, f)
                        && s <= f <= e && blocks[f].size == 0))
    {
      hide *;
      Parts();
      s := StartIndex(size, mode);
      var biggestSeg, stopped;
      ghost var fi: int, g: int;
      foundSeg, biggestSeg, stopped, e, fi, g := Search(size, mode, StartSeg(size, mode), s);
      Parts();
      PolicyIs(mode);
      if fi >= 0 {
        At(fi);
      }
      if g >= 0 {
        At(g);
      }
      SeenAll(PolicyOf(mode), blocks, s, e + 1, size, fi, g);
      asize := if biggestSeg != 0 then mem[biggestSeg].size else 0;
      if mode == LARGEST && biggestSeg != 0 && mem[biggestSeg].size >= size {
        foundSeg, fi := biggestSeg, g;
      }
      f := 0;
      if fi >= 0 {
        f := fi;
        PickedParts(PolicyOf(mode), blocks, s, e + 1, size, f);
      }
      found := stopped || (foundSeg != 0 && mem[foundSeg].size != 0);
    }

    /** The area found is cut to size and given away. */
    method Take(size: nat, mode: int, foundSeg: nat, ghost s: nat, ghost e: nat, ghost f: nat) returns (para: nat)
      requires Valid() && cuPsp != FREE_PSP && s <= f <= e < |blocks| && foundSeg == blocks[f].addr && blocks[f].Free()
      requires Picked(PolicyOf(mode), blocks, s, e + 1, size, f) && (mode == LARGEST || size <= blocks[f].size)
      requires PolicyOf(mode) != FirstFit ==> blocks[e].End() in Cuts() && blocks[f].size > 0
      modifies mem, this`blocks
      ensures Valid() && Took(old(blocks), s, e, f, size, mode, blocks, para)
      ensures ByNumber(old(blocks), s, e, f, size, mode) && para < old(blocks)[f].End()
      ensures mode in {0x02, 0x42, 0x82} ==> para + size == old(blocks)[f].addr + old(blocks)[f].size
      ensures mode !in {0x02, 0x42, 0x82} ==> para == old(blocks)[f].addr
      ensures Area(para, if mode == -1 then old(blocks)[f].size else size, cuPsp) in blocks
      ensures mode !in {0x00, 0x40, 0x80} ==> old(blocks)[e].End() in Cuts()
    {
      hide *;
      ghost var mid := blocks;
      para := Carve(size, mode, foundSeg, f);
      GivenIn(mid[f], size, mode, cuPsp);
      TookNow(mid, s, e, f, size, mode, para);
      TookNumbers(mid, s, e, f, size, mode, para);
    }

    /** `DosMemAlloc`. `mid` is memory when the last search was through, `s` and `e` the first and last area that it
        looked at, `f` the one it took; `mode` is the mode of that search, which after a failure in upper memory
        is the given one without the bit for it. */
    method DosMemAlloc(size: nat, mode0: int)
      returns (r: int, para: nat, asize: nat, ghost mode: int, ghost mid: seq<Area>,
               ghost s: nat, ghost e: nat, ghost f: nat)
      requires Valid() && cuPsp != FREE_PSP && mode0 >= LARGEST
      modifies mem, this`blocks
      ensures Valid() && SameOwners(old(blocks), mid) && Tiling(mid, first, end)
      ensures Searched(mid, s, e, size, mode, mode0)
      ensures r == SUCCESS || r == DE_NOMEM
      ensures mid[s].addr == if link % 2 == 1 && root != 0xFFFF && AsksUpper(if mode == -1 then accessMode else mode)
                                && (mode == -1 ==> size == 0xFFFF) then root else first
      ensures mode == mode0 || (mode == mode0 - 0x80 && mode0 / 0x80 % 2 == 1 && link % 2 == 1 && root != 0xFFFF)
      ensures r == DE_NOMEM && mode0 >= 0 && mode0 / 0x80 % 2 == 1 && link % 2 == 1 && root != 0xFFFF ==>
                mode == mode0 - 0x80
      ensures r == SUCCESS ==> Took(mid, s, e, f, size, mode, blocks, para) && ByNumber(mid, s, e, f, size, mode)
      ensures r == SUCCESS && mode in {0x02, 0x42, 0x82} ==> para + size == mid[f].addr + mid[f].size
      ensures r == SUCCESS && mode !in {0x02, 0x42, 0x82} ==> para == mid[f].addr
      ensures r == SUCCESS ==> Area(para, if mode == -1 then mid[f].size else size, cuPsp) in blocks
      ensures mode !in {0x00, 0x40, 0x80} ==> mid[e].End() in Cuts()
      ensures r == SUCCESS && mode == LARGEST ==> f < |mid| && asize == mid[f].size
      ensures r == DE_NOMEM ==>
                && blocks == mid && e < |mid| && mid[e].End() in Cuts() && LargestIs(mid, s, e + 1, asize)
                && !Retries(mode)
      ensures r == SUCCESS && mode != mode0 && size > 0 ==> para < root
      ensures r == DE_NOMEM ==> NoneFits(mid, s, e + 1, size)
                                || (size == 0 && mode !in {0x00, 0x40, 0x80}
                                    && ByNumber(mid, s, e, f, 0, mode) && mid[f].size == 0)
    {
      hide *;
      Codes();
      McbMarks();
      mode, para, f := mode0, 0, 0;
      var m := mode0;
      ghost var was := blocks;
      NoPairsStart(was, 0);
      while true
        invariant Valid() && SameOwners(was, blocks) && m == mode && mode >= LARGEST
        invariant mode == mode0 || FellBack(mode, mode0)
        invariant mode != mode0 && size > 0 ==> UpperFull(blocks, root, size)
        decreases m
      {
        Parts();
        PolicyIs(m);
        ghost var before := blocks;
        var found, foundSeg;
        found, foundSeg, asize, s, e, f := Choose(size, m);
        OwnersTransitive(was, before, blocks);
        SearchedNow(s, e, size, m, mode0);
        mid := blocks;
        Parts();
        if found {
          if mode != mode0 && size > 0 {
            FitIs(mid[f], size);
            StartsLow(size, m);
            FellBackParts(mode, mode0);
            FoundLow(before, mid, first, end, root, size, s, e, f);
          }
          para := Take(size, m, foundSeg, s, e, f);
          SearchNumbers(mid, s, e, size, m, mode0);
          r := SUCCESS;
          break;
        }
        if Retries(m) {
          FallsBack(m, mode0);
          if size > 0 {
            UpperSeenNow(size, m, s, e);
          }
          m := m - 0x80;
          mode := m;
        } else {
          SearchNumbers(mid, s, e, size, m, mode0);
          RefusedNumbers(mid, s, e, f, size, m);
          r := DE_NOMEM;
          break;
        }
      }
    }

    /** The search and its result in terms of the mode numbers. */
    lemma SearchNumbers(mid: seq<Area>, s: nat, e: nat, size: nat, mode: int, mode0: int)
      requires Searched(mid, s, e, size, mode, mode0) && mode0 >= LARGEST
      ensures mid[s].addr == if link % 2 == 1 && root != 0xFFFF && AsksUpper(if mode == -1 then accessMode else mode)
                                && (mode == -1 ==> size == 0xFFFF) then root else first
      ensures mode == mode0 || (mode == mode0 - 0x80 && mode0 / 0x80 % 2 == 1 && link % 2 == 1 && root != 0xFFFF)
      ensures !Retries(mode) && mode0 >= 0 && mode0 / 0x80 % 2 == 1 && link % 2 == 1 && root != 0xFFFF ==>
                mode == mode0 - 0x80
    {
      UpperBits(if mode == LARGEST then accessMode else mode);
      UpperBits(mode0);
      hide HasBit, AsksUpper;
    }

    lemma TookNumbers(mid: seq<Area>, s: nat, e: nat, f: nat, size: nat, mode: int, para: nat)
      requires Took(mid, s, e, f, size, mode, blocks, para) && cuPsp != FREE_PSP
      ensures ByNumber(mid, s, e, f, size, mode) && f < |mid|
      ensures mode in {0x02, 0x42, 0x82} ==> para + size == mid[f].addr + mid[f].size
      ensures mode !in {0x02, 0x42, 0x82} ==> para == mid[f].addr
      ensures Area(para, if mode == -1 then mid[f].size else size, cuPsp) in blocks
      ensures mode !in {0x00, 0x40, 0x80} ==> mid[e].End() in Cuts()
    {
      NumberIs(mid, s, e, f, size, mode);
      GivenAt(mid[f], size, mode, cuPsp);
      hide Picked, PolicyOf, ByNumber, Carved, Given, Replaced;
      assert !Given(mid[f], size, mode, cuPsp).Free();
    }

    lemma RefusedNumbers(mid: seq<Area>, s: nat, e: nat, f: nat, size: nat, mode: int)
      ensures PolicyOf(mode) != FirstFit <==> mode !in {0x00, 0x40, 0x80}
      ensures Picked(PolicyOf(mode), mid, s, e + 1, size, f) ==> ByNumber(mid, s, e, f, size, mode)
      ensures ByNumber(mid, s, e, f, size, mode) ==> f < |mid|
    {
      FirstFitModes(mode);
      hide PolicyOf;
      if Picked(PolicyOf(mode), mid, s, e + 1, size, f) {
        NumberIs(mid, s, e, f, size, mode);
      }
    }

    /** Whether a failed search in upper memory is followed by one from the bottom. */
    predicate Retries(mode: int)
      reads this`link
    {
      mode != LARGEST && HasBit(mode, 0x80) && link % 2 == 1 && root != NO_UMB
    }

    ghost predicate FellBack(mode: int, mode0: int)
      reads this`link
    {
      Retries(mode0) && mode == mode0 - 0x80
    }

    lemma FallsBack(mode: int, mode0: int)
      requires Retries(mode) && (mode == mode0 || FellBack(mode, mode0))
      ensures mode >= 0x80 && FellBack(mode - 0x80, mode0)
    {
    }

    lemma FellBackParts(mode: int, mode0: int)
      requires FellBack(mode, mode0)
      ensures root != NO_UMB
    {
    }

    lemma StartsLow(size: nat, mode: int)
      requires root != NO_UMB ==> first < root
      ensures root != NO_UMB ==> StartSeg(size, mode) <= root
    {
    }

    lemma UpperSeenNow(size: nat, mode: int, s: nat, e: nat)
      requires Valid() && Retries(mode) && s <= e < |blocks| && blocks[s].addr == StartSeg(size, mode)
      requires blocks[e].End() in Cuts() && NoPairs(blocks, s, e + 1) && NoneFits(blocks, s, e + 1, size)
      ensures UpperFull(blocks, root, size)
    {
      UpperSeen(blocks, first, end, root, link, size, s, e);
    }

    /** Areas `s` to `e` are those that a search looks at: from its start on, free neighbours made one. */
    ghost predicate Searched(mid: seq<Area>, s: nat, e: nat, size: nat, mode: int, mode0: int)
      reads this`link, this`accessMode
    {
      && s <= e < |mid| && mid[s].addr == StartSeg(size, mode) && NoPairs(mid, s, e + 1)
      && (mode == mode0 || FellBack(mode, mode0))
    }

    lemma SearchedNow(s: nat, e: nat, size: nat, mode: int, mode0: int)
      requires s <= e < |blocks| && blocks[s].addr == StartSeg(size, mode) && NoPairs(blocks, s, e + 1)
      requires mode == mode0 || FellBack(mode, mode0)
      ensures Searched(blocks, s, e, size, mode, mode0)
    {
    }

    /** Area `f`, the one the policy asks for, was cut to size and given to the current process; nobody
        else's memory changed. */
    ghost predicate Took(mid: seq<Area>, s: nat, e: nat, f: nat, size: nat, mode: int, now: seq<Area>, para: nat)
      reads this`link, this`cuPsp
    {
      && s <= f <= e < |mid| && Picked(PolicyOf(mode), mid, s, e + 1, size, f)
      && (PolicyOf(mode) != FirstFit ==> mid[e].End() in Cuts() && mid[f].size > 0)
      && (mode == LARGEST || size <= mid[f].size)
      && now == Replaced(mid, f, f + 1, Carved(mid[f], size, mode, cuPsp))
      && var mine := Given(mid[f], size, mode, cuPsp);
         para == mine.addr && forall b: Area :: !b.Free() ==> (b in now <==> b in mid || b == mine)
    }

    lemma TookNow(mid: seq<Area>, s: nat, e: nat, f: nat, size: nat, mode: int, para: nat)
      requires s <= f <= e < |mid| && Picked(PolicyOf(mode), mid, s, e + 1, size, f)
      requires PolicyOf(mode) != FirstFit ==> mid[e].End() in Cuts() && mid[f].size > 0
      requires mode == LARGEST || size <= mid[f].size
      requires blocks == Replaced(mid, f, f + 1, Carved(mid[f], size, mode, cuPsp))
      requires para == Given(mid[f], size, mode, cuPsp).addr
      requires forall b: Area :: !b.Free() ==> (b in blocks <==> b in mid || b == Given(mid[f], size, mode, cuPsp))
      ensures Took(mid, s, e, f, size, mode, blocks, para)
    {
    }

    /** `DosMemLargest`: the size of the largest area that could be had, upper memory and then all of it tried
        when the access mode says so. Nothing changes hands. */
    method DosMemLargest() returns (r: int, size: nat, ghost mid: seq<Area>, ghost s: nat, ghost e: nat, ghost n1: nat,
                                    ghost s2: nat, ghost e2: nat, ghost n2: nat)
      requires Valid() && cuPsp != FREE_PSP && accessMode >= 0
      modifies mem, this`blocks, this`accessMode
      ensures Valid() && SameOwners(old(blocks), blocks) && accessMode == old(accessMode)
      ensures r == if size > 0 then SUCCESS else DE_NOMEM
      ensures Tiling(mid, first, end) && SameOwners(old(blocks), mid) && s <= e < |mid|
      ensures mid[s].addr == (if link % 2 == 1 && root != 0xFFFF && accessMode / 0x40 % 4 != 0 then root else first)
      ensures NoPairs(mid, s, e + 1) && mid[e].End() in Cuts() && LargestIs(mid, s, e + 1, n1)
      ensures accessMode / 0x80 % 2 == 0 ==> size == n1 && blocks == mid
      ensures accessMode / 0x80 % 2 == 1 ==>
                && s2 <= e2 < |blocks| && accessMode >= 0x80
                && blocks[s2].addr == (if link % 2 == 1 && root != 0xFFFF && (accessMode - 0x80) / 0x40 % 4 != 0
                                       then root else first)
                && NoPairs(blocks, s2, e2 + 1) && blocks[e2].End() in Cuts() && LargestIs(blocks, s2, e2 + 1, n2)
                && size == if n2 > n1 then n2 else n1
    {
      hide *;
      Codes();
      McbMarks();
      NoPairsStart(blocks, 0);
      s2, e2, n2 := 0, 0, 0;
      UpperBits(accessMode);
      StartNumbers(accessMode);
      StartNumbers(accessMode - 0x80);
      size, mid, s, e := LargestSize();
      n1 := size;
      if HasBit(accessMode, 0x80) {
        NoBit(accessMode);
        Parts();
        accessMode := accessMode - 0x80;
        Whole();
        var lowsize;
        ghost var mid2;
        lowsize, mid2, s2, e2 := LargestSize();
        OwnersTransitive(old(blocks), mid, mid2);
        Parts();
        accessMode := accessMode + 0x80;
        Whole();
        n2 := lowsize;
        if lowsize > size {
          size := lowsize;
        }
      }
      r := if size > 0 then SUCCESS else DE_NOMEM;
    }

    /** The call of `DosMemAlloc` that asks for more than there can be. */
    method LargestSize() returns (size: nat, ghost mid: seq<Area>, ghost s: nat, ghost e: nat)
      requires Valid() && cuPsp != FREE_PSP
      modifies mem, this`blocks
      ensures Valid() && SameOwners(old(blocks), blocks) && blocks == mid && Tiling(mid, first, end)
      ensures s <= e < |mid| && mid[s].addr == StartFor(link, root, accessMode) && NoPairs(mid, s, e + 1)
      ensures mid[e].End() in Cuts() && LargestIs(mid, s, e + 1, size)
    {
      hide *;
      McbMarks();
      Parts();
      var r, dummy;
      ghost var m, f;
      r, dummy, size, m, mid, s, e, f := DosMemAlloc(0xFFFF, LARGEST);
      LargestSearched(mid, s, e, m);
      NotTaken(mid, s, e, f, blocks, dummy);
    }

    lemma LargestSearched(mid: seq<Area>, s: nat, e: nat, m: int)
      requires Searched(mid, s, e, 0xFFFF, m, LARGEST)
      ensures m == LARGEST && s <= e < |mid| && mid[s].addr == StartFor(link, root, accessMode)
      ensures NoPairs(mid, s, e + 1)
    {
    }

    /** No area has 0xFFFF paragraphs. */
    lemma NotTaken(mid: seq<Area>, s: nat, e: nat, f: nat, now: seq<Area>, para: nat)
      requires Tiling(mid, first, end) && 0 < first && end <= 0x1_0000
      ensures !Took(mid, s, e, f, 0xFFFF, LARGEST, now, para)
    {
      if Took(mid, s, e, f, 0xFFFF, LARGEST, now, para) {
        Bounds(mid, first, end, f);
      }
    }

    lemma StartNumbers(access: int)
      ensures StartFor(link, root, access) ==
              if link % 2 == 1 && root != 0xFFFF && access >= 0 && access / 0x40 % 4 != 0 then root else first
    {
      UpperBits(access);
      hide HasBit;
    }

    function StartFor(link: nat, root: nat, access: int): nat {
      if link % 2 == 1 && root != NO_UMB && (HasBit(access, 0x40) || HasBit(access, 0x80)) then root else first
    }

    /** `DosMemFree` of the header at paragraph `para`, whatever is there. */
    method DosMemFree(para: nat) returns (r: int)
      requires Valid() && para < PARAGRAPHS
      modifies mem, this`blocks
      ensures Valid() <==> para != root || root == NO_UMB
      ensures Tiling(blocks, first, end) && Stored(mem[..], blocks, Cuts())
      ensures forall k :: 0 <= k < |old(blocks)| && old(blocks)[k].addr == para ==>
                r == SUCCESS && blocks == old(blocks)[k := old(blocks)[k].(psp := FREE_PSP)]
      ensures (forall k :: 0 <= k < |old(blocks)| ==> old(blocks)[k].addr != para) ==> blocks == old(blocks)
      ensures old(mem[para].psp) == 0 || para == 0 || old(mem[para].kind) !in {0x4D, 0x5A} ==>
                mem[..] == old(mem[..]) && blocks == old(blocks)
      ensures ChangedIn(old(mem[..]), mem[..], para, para + 1)
      ensures r == if para == 0 || old(mem[para].kind) !in {0x4D, 0x5A} then DE_INVLDMCB else SUCCESS
    {
      hide *;
      Codes();
      McbMarks();
      Parts();
      KindIs(mem[para]);
      ghost var m, bs := mem[..], blocks;
      SameMem(m, para, para + 1);
      RootThere();
      if para == 0 {
        AtZero();
        return DE_INVLDMCB;
      }
      if !McbFreeable(mem[para]) {
        NotThere(para);
        return DE_INVLDMCB;
      }
      if mem[para].psp == FREE_PSP {
        FreeThere(para);
        return SUCCESS;
      }
      mem[para] := mem[para].(psp := FREE_PSP);
      assert mem[..] == m[para := m[para].(psp := FREE_PSP)];
      blocks := Freed(blocks, para);
      FreedStored(m, bs, first, end, root, Cuts(), para);
      ValidIs();
      r := SUCCESS;
    }

    /** Memory that is tiled is in good order just when the block at the root of upper memory is in use. */
    lemma ValidIs()
      requires mem.Length == PARAGRAPHS && 0 < first < end <= PARAGRAPHS && (root != NO_UMB ==> first < root < end)
      requires Tiling(blocks, first, end) && Stored(mem[..], blocks, Cuts()) && link <= 1
      ensures Valid() <==> HasRoot(blocks, root)
    {
    }

    lemma RootThere()
      requires Valid()
      ensures root != NO_UMB ==>
                0 < root < mem.Length && McbFreeable(mem[root]) && mem[root].psp != FREE_PSP
    {
      if root != NO_UMB {
        var b: Area :| b in blocks && b.addr == root && !b.Free();
        assert mem[..][root] == Header(b, Cuts());
      }
    }

    lemma AtZero()
      requires Valid()
      ensures forall k :: 0 <= k < |blocks| ==> blocks[k].addr != 0
    {
      forall k | 0 <= k < |blocks| ensures blocks[k].addr != 0 {
        Bounds(blocks, first, end, k);
      }
    }

    lemma NotThere(para: nat)
      requires Valid() && para < mem.Length && !McbFreeable(mem[para])
      ensures forall k :: 0 <= k < |blocks| ==> blocks[k].addr != para
    {
      forall k | 0 <= k < |blocks| ensures blocks[k].addr != para {
        At(k);
      }
    }

    lemma FreeThere(para: nat)
      requires Valid() && para < mem.Length && mem[para].psp == FREE_PSP
      ensures forall k :: 0 <= k < |blocks| && blocks[k].addr == para ==>
                blocks == blocks[k := blocks[k].(psp := FREE_PSP)]
    {
      forall k | 0 <= k < |blocks| && blocks[k].addr == para
        ensures blocks == blocks[k := blocks[k].(psp := FREE_PSP)] {
        At(k);
      }
    }

    /** The shrinking half of `DosMemChange`; the part cut off is joined with free areas after it. */
    method Shrink(p: nat, size: nat, ghost k: nat)
      requires Valid() && k < |blocks| && p == blocks[k].addr && size < blocks[k].size
      modifies mem, this`blocks
      ensures Valid() && k + 1 < |blocks| && OwnersBut(old(blocks), blocks, p) && blocks[..k] == old(blocks)[..k]
      ensures blocks[k] == Area(p, size, old(blocks)[k].psp) && blocks[k + 1].Free()
      ensures blocks[k + 1].addr == p + size + 1
      ensures blocks[k + 1].End() in Cuts() || (k + 2 < |blocks| && !blocks[k + 2].Free())
    {
      hide *;
      Codes();
      McbMarks();
      Parts();
      At(k);
      ghost var was, m, b := blocks, mem[..], blocks[k];
      CutsIs();
      ShrunkStored(m, was, first, end, root, link, k, size);
      var q := p + size + 1;
      mem[q] := mem[q].(size := mem[p].size - size - 1, kind := mem[p].kind);
      mem[p] := mem[p].(size := size, kind := MCB_NORMAL);
      mem[q] := mem[q].(psp := FREE_PSP);
      assert mem[..] == m[p := Mcb(MCB_NORMAL, b.psp, size)][q := Mcb(m[p].kind, FREE_PSP, b.size - size - 1)];
      blocks := Shrunk(was, k, size);
      Whole();
      ghost var cut := blocks;
      var r := JoinMcbs(q, k + 1);
      if r != SUCCESS {
        assert false;
      }
      JoinedBut(cut, blocks, k + 1);
      JoinedOwners(cut, blocks, k + 1);
      OwnersButTransitive(was, cut, blocks, p);
      Shorter(cut, blocks, k, k + 1);
      Prefix(cut, blocks, k + 1, k, k);
    }

    /** Gives area `k` to the current process. */
    method Own(p: nat, ghost k: nat)
      requires Valid() && cuPsp != FREE_PSP && k < |blocks| && p == blocks[k].addr
      modifies mem, this`blocks
      ensures Valid() && blocks == old(blocks)[k := old(blocks)[k].(psp := cuPsp)] && OwnersBut(old(blocks), blocks, p)
      ensures k < |blocks| && blocks[..k] == old(blocks)[..k] && blocks[k + 1..] == old(blocks)[k + 1..]
    {
      hide *;
      McbMarks();
      Parts();
      At(k);
      ghost var was, m := blocks, mem[..];
      OwnedStored(m, was, first, end, root, Cuts(), k, cuPsp);
      mem[p] := mem[p].(psp := cuPsp);
      blocks := was[k := was[k].(psp := cuPsp)];
      assert mem[..] == m[p := m[p].(psp := cuPsp)];
      Whole();
    }

    /** `DosMemChange` of the area whose data begins at `para`. `mid` is memory after free areas that follow were
        joined to area `k` to make it grow. */
    method DosMemChange(para: nat, size: nat) returns (r: int, maxSize: nat, ghost k: int, ghost mid: seq<Area>)
      requires Valid() && cuPsp != FREE_PSP && para < PARAGRAPHS
      requires McbValid(mem[HeaderOf(para)]) ==> exists i :: 0 <= i < |blocks| && blocks[i].addr == HeaderOf(para)
      modifies mem, this`blocks
      ensures Valid()
      ensures var h := old(mem[if para == 0 then 0xFFFF else para - 1]);
              h.kind !in {0x4D, 0x5A} || h.size == 0xFFFF ==>
                r == DE_MCBDESTRY && blocks == old(blocks) && mem[..] == old(mem[..])
      ensures var h := old(mem[if para == 0 then 0xFFFF else para - 1]);
              h.kind in {0x4D, 0x5A} && h.size != 0xFFFF ==>
                && 0 <= k < |old(blocks)| && old(blocks)[k].addr == (if para == 0 then 0xFFFF else para - 1)
                && (r == SUCCESS || r == DE_NOMEM)
                && Grew(old(blocks), mid, k, size) && (r == SUCCESS <==> size <= mid[k].size)
                && (r == DE_NOMEM ==> blocks == mid && maxSize == mid[k].size)
                && (r == SUCCESS ==> ResizedTo(old(blocks), mid, blocks, k, size))
    {
      hide *;
      Codes();
      McbMarks();
      Parts();
      r, maxSize, k, mid := DE_MCBDESTRY, 0, -1, blocks;
      var p := HeaderOf(para);
      HeaderIn(para);
      KindIs(mem[p]);
      if !McbValid(mem[p]) {
        return;
      }
      k :| 0 <= k < |blocks| && blocks[k].addr == p;
      ghost var was := blocks;
      At(k);
      JoinedSame(was, k);
      JoinedBut(was, was, k);
      if size > mem[p].size {
        var joined := JoinMcbs(p, k);
        if joined != SUCCESS {
          assert false;
        }
        JoinedBut(was, blocks, k);
        At(k);
      }
      mid := blocks;
      GrewNow(was, k, size);
      if size > mem[p].size {
        return DE_NOMEM, mem[p].size, k, mid;
      }
      OwnersButTransitive(was, mid, mid, p);
      if size < mem[p].size {
        Shrink(p, size, k);
        OwnersButTransitive(was, mid, blocks, p);
        Parts();
        At(k);
      }
      ghost var cut := blocks;
      Own(p, k);
      OwnersButTransitive(was, cut, blocks, p);
      ResizedNow(was, mid, k, size);
      r := SUCCESS;
    }

    /** `para - 1`, in 16 bits. */
    function HeaderOf(para: nat): nat {
      (para + 0xFFFF) % PARAGRAPHS
    }

    lemma HeaderIn(para: nat)
      requires para < 0x1_0000
      ensures HeaderOf(para) == if para == 0 then 0xFFFF else para - 1
    {
    }

    /** Area `k` with all that could be joined to it, if it has to grow. */
    ghost predicate Grew(was: seq<Area>, mid: seq<Area>, k: nat, size: nat)
      reads this`link
    {
      && k < |was| && Joined(was, mid, k)
      && if size <= was[k].size then mid == was
         else mid[k].End() in Cuts() || (k + 1 < |mid| && !mid[k + 1].Free())
    }

    lemma GrewNow(was: seq<Area>, k: nat, size: nat)
      requires k < |was| && Joined(was, blocks, k)
      requires size <= was[k].size ==> blocks == was
      requires size > was[k].size ==> blocks[k].End() in Cuts() || (k + 1 < |blocks| && !blocks[k + 1].Free())
      ensures Grew(was, blocks, k, size)
    {
    }

    /** Area `k` has `size` paragraphs and belongs to the current process; what was cut off is one free area. */
    ghost predicate ResizedTo(was: seq<Area>, mid: seq<Area>, now: seq<Area>, k: nat, size: nat)
      reads this`cuPsp, this`link
    {
      && k < |was| && k < |mid| && k < |now| && now[..k] == was[..k] && now[k] == Area(was[k].addr, size, cuPsp)
      && OwnersBut(was, now, was[k].addr)
      && (size < mid[k].size ==>
            && k + 1 < |now| && now[k + 1].Free()
            && (now[k + 1].End() in Cuts() || (k + 2 < |now| && !now[k + 2].Free())))
    }

    lemma ResizedNow(was: seq<Area>, mid: seq<Area>, k: nat, size: nat)
      requires k < |was| && k < |mid| && k < |blocks| && blocks[..k] == was[..k]
      requires blocks[k] == Area(was[k].addr, size, cuPsp)
      requires OwnersBut(was, blocks, was[k].addr)
      requires size < mid[k].size ==> k + 1 < |blocks| && blocks[k + 1].Free()
                                      && (blocks[k + 1].End() in Cuts() || (k + 2 < |blocks| && !blocks[k + 2].Free()))
      ensures ResizedTo(was, mid, blocks, k, size)
    {
    }

    /** An area below the root ends at it at the latest. */
    lemma BelowRoot(k: nat)
      requires Valid() && root != NO_UMB && k < |blocks| && blocks[k].addr < root
      ensures blocks[k].End() <= root
    {
      var b: Area :| b in blocks && b.addr == root && !b.Free();
      var j :| 0 <= j < |blocks| && blocks[j] == b;
      if k < j {
        Ordered(blocks, first, end, k, j);
      } else {
        Ordered(blocks, first, end, j, k);
      }
    }

    lemma CutsAre(c: nat)
      ensures c in Cuts() <==> c == end || (c == root && root != NO_UMB && link % 2 != 1)
      ensures Cuts() == CutsFor(end, root, link)
    {
    }

    /** `DosUmbLink`: links upper memory to the end of the chain of low memory, or takes it out again. Area `k`
        is the one before upper memory. */
    method DosUmbLink(n: nat) returns (ghost k: nat)
      requires Valid()
      modifies mem, this`link
      ensures Valid()
      ensures link == if root == NO_UMB || n > 1 then old(link) else n
      ensures link == old(link) ==> mem[..] == old(mem[..])
      ensures link != old(link) ==>
                k < |blocks| && blocks[k].End() == root && blocks[k].addr < |mem[..]|
                && mem[..] == Relinked(old(mem[..]), blocks[k].addr, n)
    {
      hide *;
      McbMarks();
      Parts();
      k := 0;
      ghost var m := mem[..];
      if root == NO_UMB || n > 1 || link % 2 == n {
        return;
      }
      var p, q := first, first;
      while p != root && mem[p].kind != MCB_LAST
        invariant Valid() && mem[..] == m && link == old(link)
        invariant k < |blocks| && p == blocks[k].addr <= root && p < mem.Length
        invariant k > 0 ==> q == blocks[k - 1].addr && blocks[k - 1].End() == p && p !in Cuts()
        invariant k == 0 ==> p == first
        decreases |blocks| - k
      {
        At(k);
        if !McbValid(mem[p]) {
          assert false;
        }
        BelowRoot(k);
        q := p;
        p := p + mem[p].size + 1;
        k := k + 1;
        At(k);
      }
      At(k);
      Parts();
      CutsAre(p);
      CutsAre(blocks[k].End());
      if p != root {
        BelowRoot(k);
      }
      if n == 0 {
        k := k - 1;
        At(k);
        if mem[q].kind == MCB_NORMAL && p == root {
          mem[q] := mem[q].(kind := MCB_LAST);
        }
      } else if mem[p].kind == MCB_LAST {
        mem[p] := mem[p].(kind := MCB_NORMAL);
      } else {
        return;
      }
      RelinkStored(m, blocks, first, end, root, k, n);
      RelinkedIs(m, blocks[k].addr, n);
      assert mem[..] == Relinked(m, blocks[k].addr, n);
      link := n;
      CutsAre(p);
      Whole();
    }

    /** `FreeProcessMem`: frees all areas of a process, in low and upper memory. */
    method FreeProcessMem(ps: nat) returns (r: int)
      requires Valid() && ps != FREE_PSP
      requires forall b :: b in blocks && b.addr == root ==> b.psp != ps
      modifies mem, this`blocks, this`link
      ensures Valid() && r == SUCCESS && link == old(link) && blocks == Released(old(blocks), ps, |old(blocks)|)
    {
      hide *;
      Codes();
      McbMarks();
      Parts();
      ghost var was := blocks;
      var oldumbstate := link % 2;
      ghost var _ := DosUmbLink(1);
      var p := first;
      ghost var k := 0;
      Parts();
      ReleaseStep(was, ps, 0);
      while true
        invariant Valid() && k < |blocks| == |was| && blocks == Released(was, ps, k) && p == blocks[k].addr
        invariant link == if root == NO_UMB then old(link) else 1
        decreases |blocks| - k
      {
        ReleaseOne(p, ps, k, was);
        At(k);
        CutsAre(blocks[k].End());
        if mem[p].kind == MCB_LAST {
          break;
        }
        p := p + mem[p].size + 1;
        k := k + 1;
      }
      AtTheEnd(k);
      ghost var _ := DosUmbLink(oldumbstate);
      r := SUCCESS;
    }

    /** One turn of its loop. */
    method ReleaseOne(p: nat, ps: nat, ghost k: nat, ghost was: seq<Area>)
      requires Valid() && k < |blocks| == |was| && blocks == Released(was, ps, k) && p == blocks[k].addr
      requires forall b :: b in was && b.addr == root ==> b.psp != ps
      modifies mem, this`blocks
      ensures Valid() && |blocks| == |was| && blocks == Released(was, ps, k + 1) && p == blocks[k].addr
    {
      hide *;
      McbMarks();
      At(k);
      Parts();
      ReleaseStep(was, ps, k);
      if !McbValid(mem[p]) {
        assert false;
      }
      assert was[k] in was;
      if mem[p].psp == ps {
        var _ := DosMemFree(p);
      }
    }

    lemma AtTheEnd(k: nat)
      requires Valid() && k < |blocks| && blocks[k].End() == end
      ensures k + 1 == |blocks|
    {
      if k + 1 < |blocks| {
        Ordered(blocks, first, end, k, |blocks| - 1);
      }
    }

    /** While upper memory is not linked, low and upper memory are two chains: the low one ends right before
        the root, where the other begins. */
    lemma TwoChains() returns (j: nat)
      requires Valid() && root != NO_UMB && link == 0
      ensures 0 < j < |blocks| && Tiling(blocks[..j], first, root) && Tiling(blocks[j..], root, end)
      ensures forall i :: 0 <= i < |blocks| ==>
                blocks[i].addr < |mem[..]| && mem[..][blocks[i].addr].kind ==
                  if i == j - 1 || i == |blocks| - 1 then MCB_LAST else MCB_NORMAL
    {
      var b: Area :| b in blocks && b.addr == root && !b.Free();
      j :| 0 <= j < |blocks| && blocks[j] == b;
      assert Adjacent(blocks, j - 1);
      forall i | 0 <= i < j - 1 ensures Adjacent(blocks[..j], i) {
        assert Adjacent(blocks, i);
      }
      forall i | 0 <= i < |blocks| - j - 1 ensures Adjacent(blocks[j..], i) {
        assert Adjacent(blocks, j + i);
      }
      forall i | 0 <= i < |blocks|
        ensures blocks[i].addr < |mem[..]|
        ensures mem[..][blocks[i].addr].kind == if i == j - 1 || i == |blocks| - 1 then MCB_LAST else MCB_NORMAL
      {
        assert blocks[i] in blocks;
        EndsOnce(i, j);
      }
    }

    lemma EndsOnce(i: nat, j: nat)
      requires Valid() && i < |blocks| && 0 < j < |blocks| && blocks[j].addr == root
      ensures blocks[i].End() == root <==> i == j - 1
      ensures blocks[i].End() == end <==> i == |blocks| - 1
    {
      assert Adjacent(blocks, j - 1);
      if i < j - 1 {
        Ordered(blocks, first, end, i, j - 1);
      } else if j <= i {
        Bounds(blocks, first, end, i);
        if j < i {
          Ordered(blocks, first, end, j, i);
        }
      }
      if i + 1 < |blocks| {
        Ordered(blocks, first, end, i, |blocks| - 1);
      }
    }

    /** `DosMemCheck`: a walk over the headers finds nothing wrong. */
    method DosMemCheck() returns (r: int)
      requires Valid()
      ensures r == SUCCESS
    {
      hide *;
      Codes();
      McbMarks();
      Parts();
      var p := first;
      ghost var k := 0;
      while mem[p].kind != MCB_LAST
        invariant k < |blocks| && p == blocks[k].addr && p < mem.Length
        decreases |blocks| - k
      {
        At(k);
        if mem[p].kind != MCB_NORMAL {
          assert false;
        }
        p := p + mem[p].size + 1;
        k := k + 1;
        At(k);
      }
      r := SUCCESS;
    }

    lemma CutsIs()
      ensures Cuts() == CutsFor(end, root, link)
    {
    }
  }

  lemma RelinkedIs(m: seq<Mcb>, a: nat, link: nat)
    requires a < |m|
    ensures Relinked(m, a, link) == m[a := m[a].(kind := if link == 1 then MCB_NORMAL else MCB_LAST)]
  {
  }

  lemma GivenIn(b: Area, size: nat, mode: int, psp: nat)
    requires mode == LARGEST || size <= b.size
    ensures Given(b, size, mode, psp).addr < b.End()
  {
  }

  lemma CarvedMemIs(m: seq<Mcb>, b: Area, size: nat, mode: int, psp: nat)
    requires b.End() <= |m| && (mode == LARGEST || size <= b.size)
    ensures b.End() == b.addr + b.size + 1
    ensures var p, h := b.addr, m[b.addr];
            CarvedMem(m, b, size, mode, psp) ==
            (if mode == LARGEST || size == b.size then m[p := h.(psp := psp)]
             else if TakesEnd(mode) then
               m[p := Mcb(MCB_NORMAL, FREE_PSP, b.size - size - 1)][p + b.size - size := Mcb(h.kind, psp, size)]
             else
               m[p := Mcb(MCB_NORMAL, psp, size)][p + size + 1 := Mcb(h.kind, FREE_PSP, b.size - size - 1)])
    ensures !TakesEnd(LARGEST)
    ensures Given(b, size, mode, psp).addr == if TakesEnd(mode) then b.addr + b.size - size else b.addr
  {
  }

  lemma Shorter(bs: seq<Area>, cs: seq<Area>, s: nat, k: nat)
    requires s <= k <= |bs| && k <= |cs| && bs[..k] == cs[..k]
    ensures bs[..s] == cs[..s]
  {
    assert bs[..s] == bs[..k][..s] && cs[..s] == cs[..k][..s];
  }

  lemma Prefix(bs: seq<Area>, cs: seq<Area>, k: nat, f: int, g: int)
    requires k <= |bs| && k <= |cs| && bs[..k] == cs[..k]
    ensures 0 <= f < k ==> bs[f] == cs[f]
    ensures 0 <= g < k ==> bs[g] == cs[g]
  {
    assert 0 <= f < k ==> bs[f] == bs[..k][f] == cs[..k][f];
    assert 0 <= g < k ==> bs[g] == bs[..k][g] == cs[..k][g];
  }
}
