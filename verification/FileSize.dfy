/** Changing the length of a file: `dos_extend` and `shrink_file` of kernel/fatfs.c, and
    the zero-length write made of them. */
module FileSize {
  import opened ErrorCodes
  import opened Arith
  import opened FatPacking
  import opened BlockIo
  import opened FatTable
  import opened FatChains
  import opened FatFiles

  /** Bytes in a cluster. */
  function ClusterSize(d: Dpb): nat {
    d.secsize * d.spc
  }

  /** Bytes in `k` clusters. */
  function Bytes(d: Dpb, k: nat): nat {
    k * ClusterSize(d)
  }

  /** Clusters that `n` bytes need. */
  function ClustersFor(d: Dpb, n: nat): nat
    requires d.Valid()
  {
    if n == 0 then 0 else Rel(d, n - 1) + 1
  }

  /** The relative cluster of an offset is the one its byte lies in. */
  lemma RelBounds(d: Dpb, offset: nat)
    requires d.Valid()
    ensures Rel(d, offset) * ClusterSize(d) <= offset < (Rel(d, offset) + 1) * ClusterSize(d)
    ensures ClusterSize(d) > 0
  {
    InCluster(offset, d.secsize, d.spc);
  }

  lemma InCluster(offset: nat, s: nat, p: nat)
    requires s > 0 && p > 0
    ensures s * p > 0
    ensures offset / s / p * (s * p) <= offset < (offset / s / p + 1) * (s * p)
  {
    var q, b := offset / s, offset % s;
    var r, t := q / p, q % p;
    assert offset == q * s + b && q == r * p + t;
    MulMono(t + 1, p, s);
    MulStep(t, s);
    assert q * s == (r * p) * s + t * s by { Distribute(r * p, t, s); }
    assert (r * p) * s == r * (s * p) by { Reassociate(r, p, s); Commute(p, s); }
    MulStep(r, s * p);
    MulMono(1, p, s);
    Commute(p, s);
  }

  /** The least number of whole clusters that hold `n` bytes: the rounded-up quotient. */
  lemma ClustersForCeil(d: Dpb, n: nat, k: nat)
    requires d.Valid()
    ensures n <= ClustersFor(d, n) * ClusterSize(d)
    ensures n <= k * ClusterSize(d) ==> ClustersFor(d, n) <= k
    ensures n > 0 && n % ClusterSize(d) != 0 ==> Rel(d, n) + 1 == ClustersFor(d, n)
    ensures n > 0 && n % ClusterSize(d) == 0 ==> Rel(d, n) == ClustersFor(d, n)
  {
    var z := ClusterSize(d);
    if n > 0 {
      RelBounds(d, n - 1);
      RelBounds(d, n);
      var q := Rel(d, n - 1);
      if k <= q {
        MulMono(k, q, z);
      }
      SameQuotient(n - 1, q, z);
      SameQuotient(n, Rel(d, n), z);
      StepUp(n, z);
    }
  }

  lemma SameQuotient(n: nat, q: nat, z: nat)
    requires z > 0 && q * z <= n < (q + 1) * z
    ensures n / z == q
  {
    MulStep(q, z);
    DivModUnique(n, z, q, n - q * z);
  }

  lemma StepUp(n: nat, z: nat)
    requires z > 0 && n > 0
    ensures if n % z == 0 then n / z == (n - 1) / z + 1 else n / z == (n - 1) / z
  {
    var q, r := n / z, n % z;
    assert n == q * z + r;
    if r == 0 {
      MulStep(q - 1, z);
      DivModUnique(n - 1, z, q - 1, z - 1);
    } else {
      DivModUnique(n - 1, z, q, r - 1);
    }
  }

  /** The call of `map_cluster` in `dos_extend`, for the offset or, if `special`, the byte before it. */
  method MapFor(fn: FNode, special: bool, ghost target: nat, ghost cs: seq<nat>) returns (r: int, ghost grown: seq<nat>)
    requires fn.Open(cs) && fn.offset > 0 && target == if special then fn.offset - 1 else fn.offset
    modifies fn, fn.vol, fn.vol.cache
    ensures fn.Open(grown) && Kept(old(Shot(fn.vol)), Shot(fn.vol), cs, grown)
    ensures fn.offset == old(fn.offset) && fn.size == old(fn.size)
    ensures r == SUCCESS ==> |grown| == if Rel(fn.vol.dpb, target) < |cs| then |cs| else Rel(fn.vol.dpb, target) + 1
    ensures r != SUCCESS && grown != [] ==> fn.clusterOffset < Rel(fn.vol.dpb, target)
    ensures r != SUCCESS && fn.vol.cache.reliableReads ==>
              FreeCount(fn.vol.Fat()) == 0 && |grown| <= Rel(fn.vol.dpb, target)
                                                            && (grown == [] || fn.clusterOffset == |grown| - 1)
  {
    hide *;
    Codes();
    fn.OpenParts(cs);
    if special {
      fn.offset := fn.offset - 1;
    }
    fn.OpenWhole(cs);
    r, grown := fn.MapCluster(true, cs);
    fn.OpenParts(grown);
    if special {
      fn.offset := fn.offset + 1;
    }
    fn.OpenWhole(grown);
  }

  /** The offset is at a cluster boundary. */
  predicate Aligned(d: Dpb, offset: nat)
    requires d.Valid()
  {
    RelBounds(d, 0);
    offset % ClusterSize(d) == 0
  }

  /** Clusters that a file extended to `offset` has to have: for an empty write, just those for its bytes. */
  function Wanted(d: Dpb, offset: nat, emptywrite: bool): nat
    requires d.Valid()
  {
    if emptywrite then ClustersFor(d, offset) else Rel(d, offset) + 1
  }

  /** `dos_extend` for an offset beyond the size. */
  method Lengthen(fn: FNode, emptywrite: bool, ghost cs: seq<nat>) returns (r: int, ghost grown: seq<nat>)
    requires fn.Open(cs) && fn.offset > fn.size
    modifies fn, fn.vol, fn.vol.cache
    ensures fn.Open(grown) && Kept(old(Shot(fn.vol)), Shot(fn.vol), cs, grown) && fn.offset == old(fn.offset)
    ensures r == SUCCESS || r == DE_HNDLDSKFULL
    ensures r == SUCCESS ==> fn.size == fn.offset
    ensures r == SUCCESS ==> |grown| == if Wanted(fn.vol.dpb, fn.offset, emptywrite) <= |cs| then |cs|
                                        else Wanted(fn.vol.dpb, fn.offset, emptywrite)
    ensures r != SUCCESS ==> fn.size == if grown == [] then old(fn.size) else Bytes(fn.vol.dpb, fn.clusterOffset + 1)
    ensures r != SUCCESS && grown != [] ==> fn.size <= fn.offset
    ensures r != SUCCESS && fn.vol.cache.reliableReads ==>
              FreeCount(fn.vol.Fat()) == 0 && |grown| < Wanted(fn.vol.dpb, fn.offset, emptywrite)
              && (grown != [] ==> fn.clusterOffset == |grown| - 1)
  {
    hide *;
    Codes();
    fn.OpenParts(cs);
    var d := fn.vol.dpb;
    var special := emptywrite && Aligned(d, fn.offset);
    ghost var target := if special then fn.offset - 1 else fn.offset;
    ExtendTarget(d, fn.offset, emptywrite, target);
    r, grown := MapFor(fn, special, target, cs);
    fn.OpenParts(grown);
    if r == SUCCESS {
      fn.size := fn.offset;
    } else {
      r := DE_HNDLDSKFULL;
      if fn.cluster != FREE {
        SizeBound(d, fn.clusterOffset, target);
        fn.size := Bytes(d, fn.clusterOffset + 1);
      }
    }
    fn.OpenWhole(grown);
  }

  /** `dos_extend`: takes a file from its size to an offset beyond it. */
  method DosExtend(fn: FNode, emptywrite: bool, ghost cs: seq<nat>) returns (r: int, ghost grown: seq<nat>)
    requires fn.Open(cs)
    modifies fn, fn.vol, fn.vol.cache
    ensures fn.Open(grown) && Kept(old(Shot(fn.vol)), Shot(fn.vol), cs, grown) && fn.offset == old(fn.offset)
    ensures r == SUCCESS || r == DE_HNDLDSKFULL
    ensures r == SUCCESS ==> fn.size == if old(fn.size) < fn.offset then fn.offset else old(fn.size)
    ensures old(fn.offset <= fn.size) ==> r == SUCCESS && grown == cs
    ensures old(fn.offset > fn.size) && r == SUCCESS ==>
              var n := Wanted(fn.vol.dpb, fn.offset, emptywrite); |grown| == if n <= |cs| then |cs| else n
    ensures r != SUCCESS ==> fn.size == if grown == [] then old(fn.size) else Bytes(fn.vol.dpb, fn.clusterOffset + 1)
    ensures r != SUCCESS && grown != [] ==> fn.size <= fn.offset
    ensures r != SUCCESS && fn.vol.cache.reliableReads ==>
              FreeCount(fn.vol.Fat()) == 0 && |grown| < Wanted(fn.vol.dpb, fn.offset, emptywrite)
              && (grown != [] ==> fn.clusterOffset == |grown| - 1)
  {
    hide *;
    Codes();
    fn.OpenParts(cs);
    KeptSame(Shot(fn.vol), cs);
    r, grown := SUCCESS, cs;
    if fn.offset > fn.size {
      r, grown := Lengthen(fn, emptywrite, cs);
    }
  }

  lemma SizeBound(d: Dpb, k: nat, offset: nat)
    requires d.Valid()
    ensures k < Rel(d, offset) ==> Bytes(d, k + 1) <= offset
  {
    RelBounds(d, offset);
    if k < Rel(d, offset) {
      MulMono(k + 1, Rel(d, offset), ClusterSize(d));
    }
  }

  /** Which offset `dos_extend` maps, and how many clusters that asks for. */
  lemma ExtendTarget(d: Dpb, offset: nat, emptywrite: bool, target: nat)
    requires d.Valid() && offset > 0
    requires target == if emptywrite && Aligned(d, offset) then offset - 1 else offset
    ensures Rel(d, target) + 1 == Wanted(d, offset, emptywrite)
    ensures Rel(d, target) <= Rel(d, offset) && target <= offset
  {
    ClustersForCeil(d, offset, 0);
    RelBounds(d, target);
  }

  /** Clusters that `shrink_file` leaves a file with: at least it looks at one. */
  function Last(d: Dpb, offset: nat): nat
    requires d.Valid()
  {
    if offset == 0 then 0 else Rel(d, offset - 1)
  }

  /** The first part of `shrink_file`: to the last cluster that stays, or the first if none does. */
  method SeekEnd(fn: FNode, ghost cs: seq<nat>) returns (ok: bool)
    requires fn.Open(cs)
    modifies fn, fn.vol, fn.vol.cache
    ensures fn.Open(cs) && fn.offset == old(fn.offset) && fn.size == old(fn.size) && fn.start == old(fn.start)
    ensures fn.vol.Fat() == old(fn.vol.Fat()) && fn.vol.Rest() == old(fn.vol.Rest())
    ensures LoggedSafely(old(fn.vol.log), fn.vol.log)
    ensures ok ==> Last(fn.vol.dpb, fn.offset) < |cs| && fn.clusterOffset == Last(fn.vol.dpb, fn.offset)
    ensures fn.vol.cache.reliableReads && Last(fn.vol.dpb, fn.offset) < |cs| ==> ok
  {
    hide *;
    fn.OpenParts(cs);
    LastIs(fn.vol.dpb, fn.offset);
    var lastoffset := fn.offset;
    var r;
    ghost var grown;
    if fn.offset > 0 {
      fn.offset := fn.offset - 1;
    }
    fn.OpenWhole(cs);
    ghost var before := Shot(fn.vol);
    r, grown := fn.MapCluster(false, cs);
    KeptParts(before, Shot(fn.vol), cs, cs);
    fn.OpenParts(cs);
    fn.offset := lastoffset;
    fn.OpenWhole(cs);
    ok := r == SUCCESS;
  }

  lemma LastIs(d: Dpb, offset: nat)
    requires d.Valid()
    ensures Last(d, offset) == Rel(d, if offset > 0 then offset - 1 else 0)
  {
  }

  /** What `shrink_file` does once it stands on the last cluster that stays (or, for an empty file, on the
      first): ends the chain there and frees the rest. `left` is the chain the file then has. */
  method CutHere(fn: FNode, ghost cs: seq<nat>, ghost n: nat) returns (r: int, ghost left: seq<nat>)
    requires fn.Open(cs) && n <= |cs| && fn.clusterOffset == (if n == 0 then 0 else n - 1) < |cs|
    requires (fn.size == 0 <==> n == 0)
    modifies fn, fn.vol, fn.vol.cache
    ensures fn.Open(left) && fn.offset == old(fn.offset) && fn.size == old(fn.size)
    ensures OutsideKept(old(fn.vol.Fat()), fn.vol.Fat(), cs) && OnlyCut(old(fn.vol.Fat()), fn.vol.Fat())
    ensures fn.vol.Rest() == old(fn.vol.Rest())
    ensures LoggedSafely(old(fn.vol.log), fn.vol.log)
    ensures (r == SUCCESS || r == DE_ACCESS) && left <= cs
    ensures r == SUCCESS ==> left == cs[..n]
    ensures r != SUCCESS ==> fn.vol.Fat() == old(fn.vol.Fat())
    ensures fn.vol.Fat() != old(fn.vol.Fat()) ==> DiskCurrent(fn.vol)
    ensures fn.vol.cache.reliableReads ==> r == SUCCESS && Trimmed(old(fn.vol.Fat()), fn.vol.Fat(), cs, n)
  {
    hide *;
    Codes();
    fn.OpenParts(cs);
    ghost var f0, l0, f := fn.vol.Fat(), fn.vol.log, if n == 0 then 1 else n;
    CutFacts(f0, fn.start, cs, n);
    CutOnce(f0, fn.cluster, if n == 0 then FREE else LONG_LAST_CLUSTER);
    LoggedTransitive(l0, l0, l0);
    r, left := DE_ACCESS, cs;
    var st := fn.cluster;
    var next := NextOf(fn.vol, st);
    if next <= 1 {
      fn.OpenWhole(cs);
      return;
    }
    var last := LONG_LAST_CLUSTER;
    if fn.size == 0 {
      fn.cluster := FREE;
      fn.start := FREE;
      last := FREE;
      left := [];
    } else if next == LONG_LAST_CLUSTER {
      fn.OpenWhole(cs);
      return SUCCESS, cs;
    }
    InRangeIs(fn.vol, st);
    var ok := Link(fn.vol, st, last);
    if !ok {
      fn.OpenWhole(left);
      return;
    }
    left := cs[..n];
    ghost var g, l1 := fn.vol.Fat(), fn.vol.log;
    ghost var k := WipeOutClusters(fn.vol, next, if f < |cs| then cs[f..] else []);
    LoggedTransitive(l0, l1, fn.vol.log);
    CutThenFreed(f0, g, fn.vol.Fat());
    if f < |cs| {
      WipedBound(g, fn.vol.Fat(), cs[f..], k);
      AfterWipe(f0, g, fn.vol.Fat(), fn.start, cs, n, f, k);
    }
    ReadyIs(fn.vol);
    fn.vol.MountedParts();
    ok := FlushDrive(fn.vol);
    CurrentIs(fn.vol);
    fn.OpenWhole(left);
    r := if ok then SUCCESS else DE_ACCESS;
  }

  lemma WipedBound(g: seq<nat>, h: seq<nat>, ds: seq<nat>, k: nat)
    requires WipedTo(g, h, ds, k)
    ensures k <= |ds|
  {
  }

  /** What `shrink_file` finds at its cut. */
  lemma CutFacts(fat: seq<nat>, start: nat, cs: seq<nat>, n: nat)
    requires Safe(fat) && FileChain(fat, start, cs) && cs != [] && n <= |cs|
    ensures var f := if n == 0 then 1 else n;
            var c, v := cs[f - 1], if n == 0 then FREE else LONG_LAST_CLUSTER;
            && 2 <= c < |fat| && Next(fat, c) > 1 && (Next(fat, c) == LONG_LAST_CLUSTER <==> f == |cs|)
            && (f < |cs| ==>
                  Next(fat, c) == cs[f] && WipedTo(fat[c := v], fat[c := v], cs[f..], 0) && cs[f..][0] == cs[f])
            && Safe(fat[c := v]) && FileChain(fat[c := v], if n == 0 then FREE else start, cs[..n])
            && OutsideKept(fat, fat, cs) && OutsideKept(fat, fat[c := v], cs)
            && (f == |cs| ==> Trimmed(fat, fat[c := v], cs, n))
            && (n == |cs| ==> cs[..n] == cs && Trimmed(fat, fat, cs, n))
  {
    var f := if n == 0 then 1 else n;
    NextInOpen(fat, start, cs, f - 1);
    CutFile(fat, start, cs, n);
    assert cs[f - 1] in cs;
    if f == |cs| {
      CutOnly(fat, cs, n);
    }
    if n == |cs| {
      assert cs[..n] == cs && cs[n..] == [];
    }
  }

  /** What the wipe of the cut-off part leaves. */
  lemma AfterWipe(fat: seq<nat>, g: seq<nat>, h: seq<nat>, start: nat, cs: seq<nat>, n: nat, f: nat, k: nat)
    requires Safe(fat) && IsChain(fat, cs) && n < |cs| && f == (if n == 0 then 1 else n) < |cs|
    requires cs[f - 1] < |fat| && g == fat[cs[f - 1] := if n == 0 then FREE else LONG_LAST_CLUSTER]
    requires FileChain(g, start, cs[..n]) && k <= |cs| - f && WipedTo(g, h, cs[f..], k)
    ensures Safe(h) && FileChain(h, start, cs[..n]) && OutsideKept(fat, h, cs)
    ensures k == |cs| - f ==> Trimmed(fat, h, cs, n)
  {
    NoCycle(fat, cs);
    KeptDisjoint(cs, n, f, k);
    ClearKeeps(g, h, start, cs[..n], cs[f..], k);
    WipedFile(fat, g, h, cs, n, f, k);
  }

  lemma LastIsKept(d: Dpb, offset: nat)
    requires d.Valid()
    ensures ClustersFor(d, offset) == 0 <==> offset == 0
    ensures Last(d, offset) == if offset == 0 then 0 else ClustersFor(d, offset) - 1
  {
  }

  lemma NothingCut(fat: seq<nat>, cs: seq<nat>)
    ensures OnlyCut(fat, fat) && OutsideKept(fat, fat, cs) && (cs == [] ==> Trimmed(fat, fat, cs, 0) && cs[..0] == cs)
  {
  }

  /** `shrink_file`: cuts the chain of a file down to what its size, already set to the offset, needs. */
  method ShrinkFile(fn: FNode, ghost cs: seq<nat>) returns (r: int, ghost left: seq<nat>)
    requires fn.Open(cs) && fn.size == fn.offset
    modifies fn, fn.vol, fn.vol.cache
    ensures fn.Open(left) && fn.offset == old(fn.offset) && fn.size == old(fn.size)
    ensures OutsideKept(old(fn.vol.Fat()), fn.vol.Fat(), cs) && OnlyCut(old(fn.vol.Fat()), fn.vol.Fat())
    ensures fn.vol.Rest() == old(fn.vol.Rest())
    ensures LoggedSafely(old(fn.vol.log), fn.vol.log)
    ensures (r == SUCCESS || r == DE_ACCESS) && left <= cs
    ensures r == SUCCESS ==>
              ClustersFor(fn.vol.dpb, fn.offset) <= |cs| && left == cs[..ClustersFor(fn.vol.dpb, fn.offset)]
    ensures r != SUCCESS ==> fn.vol.Fat() == old(fn.vol.Fat())
    ensures fn.vol.Fat() != old(fn.vol.Fat()) ==> DiskCurrent(fn.vol)
    ensures fn.vol.cache.reliableReads && ClustersFor(fn.vol.dpb, fn.offset) <= |cs| ==>
              r == SUCCESS && Trimmed(old(fn.vol.Fat()), fn.vol.Fat(), cs, ClustersFor(fn.vol.dpb, fn.offset))
  {
    hide *;
    Codes();
    fn.OpenParts(cs);
    LastIsKept(fn.vol.dpb, fn.offset);
    ghost var f0, l0 := fn.vol.Fat(), fn.vol.log;
    NothingCut(f0, cs);
    LoggedTransitive(l0, l0, l0);
    if fn.offset == 0 && fn.cluster == FREE {
      return SUCCESS, cs;
    }
    var ok := SeekEnd(fn, cs);
    if !ok {
      return DE_ACCESS, cs;
    }
    ghost var l1 := fn.vol.log;
    r, left := CutHere(fn, cs, ClustersFor(fn.vol.dpb, fn.offset));
    LoggedTransitive(l0, l1, fn.vol.log);
  }
}
