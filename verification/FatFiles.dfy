/** Cluster allocation of kernel/fatfs.c: finding free clusters, growing, walking and
    freeing chains, with every FAT write kept safe. */
module FatFiles {
  import opened ErrorCodes
  import opened FatPacking
  import opened BlockIo
  import opened FatTable
  import opened FatChains

  /** A mounted volume whose search hint and free count can be relied on. */
  ghost predicate Ready(vol: Volume)
    reads vol, vol.cache
  {
    vol.Valid() && vol.HintOk() && vol.FreeRight()
  }

  lemma ReadyParts(vol: Volume)
    requires Ready(vol)
    ensures vol.dpb.Valid()
  {
  }

  lemma ReadyIs(vol: Volume)
    requires Ready(vol)
    ensures vol.Valid() && vol.dpb.Valid() && |vol.Fat()| == vol.dpb.MaxCluster() + 1 >= 2
    ensures vol.Fat() == vol.dpb.Fat(vol.cache.logical)
    ensures vol.hint == UNKNCLUSTER || 2 <= vol.hint <= vol.dpb.MaxCluster()
    ensures vol.nfree == vol.dpb.UnknownFree() || vol.nfree == FreeCount(vol.Fat())
  {
  }

  lemma NowReady(vol: Volume)
    requires vol.Valid() && vol.dpb.Valid()
    requires vol.hint == UNKNCLUSTER || 2 <= vol.hint <= vol.dpb.MaxCluster()
    ensures vol.HintOk()
    ensures vol.nfree == vol.dpb.UnknownFree() || vol.nfree == FreeCount(vol.Fat()) ==> Ready(vol)
  {
  }

  /** The FAT depends on the logical disk alone. */
  lemma FatIs(vol: Volume)
    requires vol.dpb.Valid()
    ensures vol.Fat() == vol.dpb.Fat(vol.cache.logical) && |vol.Fat()| == vol.dpb.MaxCluster() + 1
    ensures vol.Rest() == vol.dpb.Rest(vol.cache.logical)
  {
  }

  /** A volume mounted on a cache that is in good order, its FAT copies included, is in good order. */
  method Mount(d: Dpb, cache: BufferCache) returns (vol: Volume)
    requires d.Valid() && d.secsize == cache.secsize && |cache.ring| >= 2 && cache.reliableWrites
    requires d.unit in cache.geometry && cache.geometry[d.unit] == FatArea(d.FatStart(), d.FatSectors(), d.Copies())
    requires cache.Valid() && MirrorsFollow(cache.geometry, cache.State())
    ensures fresh(vol) && vol.dpb == d && vol.cache == cache && Ready(vol)
    ensures vol.Fat() == d.Fat(cache.logical) && vol.Rest() == d.Rest(cache.logical)
  {
    hide *;
    vol := new Volume(d, cache);
    vol.Remounted();
    FatIs(vol);
    NowReady(vol);
  }

  /** The writes logged between two moments each left the FAT safe. */
  ghost predicate LoggedSafely(before: seq<seq<nat>>, after: seq<seq<nat>>) {
    before <= after && forall i :: |before| <= i < |after| ==> Safe(after[i])
  }

  lemma LoggedTransitive(a: seq<seq<nat>>, b: seq<seq<nat>>, c: seq<seq<nat>>)
    ensures LoggedSafely(a, a)
    ensures LoggedSafely(a, b) && LoggedSafely(b, c) ==> LoggedSafely(a, c)
  {
    if LoggedSafely(a, b) && LoggedSafely(b, c) {
      assert forall i :: 0 <= i < |b| ==> b[i] == c[i];
    }
  }

  /** The relative cluster of a file offset. */
  function Rel(d: Dpb, offset: nat): nat
    requires d.secsize > 0 && d.spc > 0
  {
    offset / d.secsize / d.spc
  }

  /** The FAT, the rest of the logical disk, the FAT writes so far, and whether reads can be relied on. */
  datatype Snapshot = Snapshot(fat: seq<nat>, rest: map<Block, Sector>, log: seq<seq<nat>>, exact: bool)

  ghost function Shot(vol: Volume): (s: Snapshot)
    requires vol.dpb.Valid()
    reads vol, vol.cache
    ensures s.fat == vol.Fat() && s.rest == vol.Rest() && s.log == vol.log && s.exact == vol.cache.reliableReads
  {
    Snapshot(vol.Fat(), vol.Rest(), vol.log, vol.cache.reliableReads)
  }

  /** The clusters that the file has gained are those that are no longer free. While reads are reliable none is lost. */
  ghost predicate Counted(a: Snapshot, b: Snapshot, cs: seq<nat>, grown: seq<nat>) {
    b.exact == a.exact && (a.exact ==> FreeCount(b.fat) + |grown| == FreeCount(a.fat) + |cs|)
  }

  /** What every step on a file with chain `cs`, now `grown`, keeps: each write is safe, clusters outside
      the chain stay, no free cluster is lost, and the disk outside the FAT stays. */
  ghost predicate Kept(a: Snapshot, b: Snapshot, cs: seq<nat>, grown: seq<nat>) {
    Grown(a.fat, b.fat, cs, grown) && b.rest == a.rest && LoggedSafely(a.log, b.log) && Counted(a, b, cs, grown)
  }

  lemma KeptWhole(a: Snapshot, b: Snapshot, cs: seq<nat>, grown: seq<nat>)
    requires Grown(a.fat, b.fat, cs, grown) && b.rest == a.rest && LoggedSafely(a.log, b.log) && b.exact == a.exact
    requires a.exact ==> FreeCount(b.fat) + |grown| == FreeCount(a.fat) + |cs|
    ensures Kept(a, b, cs, grown)
  {
  }

  lemma KeptParts(a: Snapshot, b: Snapshot, cs: seq<nat>, grown: seq<nat>)
    requires Kept(a, b, cs, grown)
    ensures Grown(a.fat, b.fat, cs, grown) && b.rest == a.rest && LoggedSafely(a.log, b.log) && b.exact == a.exact
    ensures a.exact ==> FreeCount(b.fat) + |grown| == FreeCount(a.fat) + |cs|
  {
  }

  lemma KeptTransitive(a: Snapshot, b: Snapshot, c: Snapshot, c0: seq<nat>, c1: seq<nat>, c2: seq<nat>, start: nat)
    requires Kept(a, b, c0, c1) && Kept(b, c, c1, c2) && FileChain(b.fat, start, c1)
    ensures Kept(a, c, c0, c2)
  {
    GrownTransitive(a.fat, b.fat, c.fat, c0, c1, c2, start);
    LoggedTransitive(a.log, b.log, c.log);
  }

  lemma KeptSame(a: Snapshot, cs: seq<nat>)
    ensures Kept(a, a, cs, cs)
  {
  }

  /** Nothing on the volume changed but, at most, the search hint. */
  twostate predicate Still(vol: Volume)
    reads vol, vol.cache
  {
    vol.cache.logical == old(vol.cache.logical) && vol.log == old(vol.log) && vol.nfree == old(vol.nfree)
  }

  /** The `i`-th cluster that a search from `start` looks at, on a volume whose last cluster is `size`. */
  function Probe(start: nat, size: nat, i: nat): int {
    if start + i <= size then start + i else start + i - size + 1
  }

  predicate NotFree(fat: seq<nat>, c: int) {
    2 <= c < |fat| ==> fat[c] != FREE
  }

  /** One turn of the search looks at every cluster, and at none twice. */
  lemma ProbesAll(start: nat, size: nat, c: nat, i: nat, j: nat)
    requires 2 <= start <= size
    ensures i < j < size - 1 ==> Probe(start, size, i) != Probe(start, size, j)
    ensures var k := if c >= start then c - start else c - start + size - 1;
            2 <= c <= size ==> 0 <= k < size - 1 && Probe(start, size, k) == c
  {
  }

  /** None of the first `n` clusters looked at is free. */
  ghost predicate Swept(fat: seq<nat>, start: nat, size: nat, n: nat) {
    forall i: nat :: i < n ==> NotFree(fat, Probe(start, size, i))
  }

  lemma SweptStep(fat: seq<nat>, start: nat, size: nat, n: nat)
    ensures Swept(fat, start, size, 0)
    ensures Swept(fat, start, size, n) && NotFree(fat, Probe(start, size, n)) ==> Swept(fat, start, size, n + 1)
  {
  }

  /** A search that used all its probes up has seen the whole FAT. */
  lemma SweptFull(fat: seq<nat>, start: nat, size: nat, n: nat)
    requires |fat| == size + 1 && 2 <= start && (start <= size || (start == 2 && size == 1)) && n >= size - 1
    requires Swept(fat, start, size, n)
    ensures FreeCount(fat) == 0
  {
    forall c | 2 <= c < |fat| ensures fat[c] != FREE {
      ProbesAll(start, size, c, 0, 0);
    }
    FreeCountZero(fat);
  }

  /** Cluster `r` is free, and none between `start` and it, going on from the end at 2. */
  ghost predicate FirstFrom(fat: seq<nat>, start: nat, r: nat) {
    && 2 <= r < |fat| && fat[r] == 0
    && forall c :: 2 <= c < |fat| && (if start <= r then start <= c < r else start <= c || c < r) ==> fat[c] != 0
  }

  lemma SweptPlainly(fat: seq<nat>, start: nat, size: nat, n: nat, r: nat)
    requires |fat| == size + 1 && 2 <= start && (start <= size || (start == 2 && size == 1)) && n < size
    requires Swept(fat, start, size, n) && r == Probe(start, size, n) && 2 <= r < |fat| && fat[r] == FREE
    ensures FirstFrom(fat, start, r)
  {
    forall c | 2 <= c < |fat| && (if start <= r then start <= c < r else start <= c || c < r) ensures fat[c] != 0 {
      var k := if c >= start then c - start else c - start + size - 1;
      assert k < n && Probe(start, size, k) == c && NotFree(fat, Probe(start, size, k));
    }
  }

  /** The loop of `find_fat_free`; it makes `n` unsuccessful probes. */
  method Sweep(vol: Volume, start: nat) returns (found: bool, idx: nat, ghost n: nat)
    requires vol.Valid() && (start == 2 || vol.InRange(start))
    modifies vol`nfree, vol`log, vol.cache
    ensures vol.Valid() && vol.cache.logical == old(vol.cache.logical) && vol.log == old(vol.log)
    ensures vol.nfree == old(vol.nfree)
    ensures found ==>
              && vol.InRange(idx) && vol.Fat()[idx] == FREE && n < vol.dpb.MaxCluster()
              && idx == Probe(start, vol.dpb.MaxCluster(), n)
    ensures n < vol.dpb.MaxCluster() + 1
    ensures !found && vol.cache.reliableReads ==> FreeCount(vol.Fat()) == 0
    ensures FreeCount(vol.Fat()) == 0 ==> !found
    ensures found && vol.cache.reliableReads ==> Swept(vol.Fat(), start, vol.dpb.MaxCluster(), n)
  {
    hide *;
    EndMarks();
    SweepParts(vol, start);
    FatIs(vol);
    ghost var fat := vol.Fat();
    var size := vol.dpb.MaxCluster();
    FreeCountZero(fat);
    SweptStep(fat, start, size, 0);
    idx, n := start, 0;
    while true
      invariant vol.Valid() && vol.Fat() == fat && vol.nfree == old(vol.nfree) && vol.log == old(vol.log)
      invariant vol.cache.logical == old(vol.cache.logical)
      invariant idx == Probe(start, size, n) && (n == 0 || n < size - 1)
      invariant vol.cache.reliableReads ==> Swept(fat, start, size, n)
      decreases size - n
    {
      InRangeIs(vol, idx);
      found := vol.IsFreeCluster(idx);
      FatIs(vol);
      if found {
        return;
      }
      NotFreeIs(fat, idx);
      SweptStep(fat, start, size, n);
      NextProbe(start, size, n);
      n := n + 1;
      idx := idx + 1;
      if idx > size {
        idx := 2;
      }
      if idx == start {
        if vol.cache.reliableReads {
          SweptFull(fat, start, size, n);
        }
        return;
      }
    }
  }

  lemma SweepParts(vol: Volume, start: nat)
    requires vol.Valid() && (start == 2 || vol.InRange(start))
    ensures var size := vol.dpb.MaxCluster();
            && vol.dpb.Valid() && |vol.Fat()| == size + 1 >= 2 && 2 <= start
            && (start <= size || (start == 2 && size == 1))
            && Probe(start, size, 0) == start
  {
  }

  lemma NotFreeIs(fat: seq<nat>, c: int)
    ensures NotFree(fat, c) <==> (2 <= c < |fat| ==> fat[c] != FREE)
  {
  }

  /** The step from one probe to the next; the turn ends where it began. */
  lemma NextProbe(start: nat, size: nat, n: nat)
    requires size >= 1 && 2 <= start && (start <= size || (start == 2 && size == 1)) && (n == 0 || n < size - 1)
    ensures var idx := Probe(start, size, n);
            var next := if idx + 1 > size then 2 else idx + 1;
            if next == start then n + 1 >= size - 1 else n + 1 < size - 1 && Probe(start, size, n + 1) == next
  {
  }

  /** `find_fat_free`: the first free cluster from the hint on, wrapping once; LONG_LAST_CLUSTER
      when the disk is full. */
  method FindFatFree(vol: Volume) returns (r: nat)
    requires Ready(vol)
    modifies vol, vol.cache
    ensures Ready(vol) && Still(vol) && vol.log == old(vol.log)
    ensures vol.Fat() == old(vol.Fat()) && vol.Rest() == old(vol.Rest()) && vol.cache.logical == old(vol.cache.logical)
    ensures r == LONG_LAST_CLUSTER || (vol.InRange(r) && vol.Fat()[r] == FREE && vol.hint == r)
    ensures FreeCount(vol.Fat()) == 0 ==> r == LONG_LAST_CLUSTER
    ensures r == LONG_LAST_CLUSTER && vol.cache.reliableReads ==> FreeCount(vol.Fat()) == 0
    ensures r == LONG_LAST_CLUSTER ==> vol.hint == 0
    ensures r != LONG_LAST_CLUSTER && vol.cache.reliableReads ==>
              FirstFrom(vol.Fat(), if old(vol.hint) == 0 then 2 else old(vol.hint), r)
  {
    var found, idx;
    ghost var n, start := 0, if vol.hint == 0 then 2 else vol.hint;
    found, idx, n := Sweep(vol, if vol.hint != UNKNCLUSTER then vol.hint else 2);
    if found && vol.cache.reliableReads {
      SweptPlainly(vol.Fat(), start, vol.dpb.MaxCluster(), n, idx);
    }
    vol.hint := if found then idx else UNKNCLUSTER;
    r := if found then idx else LONG_LAST_CLUSTER;
  }

  /** `next_cluster` on a volume in good order. */
  method NextOf(vol: Volume, c: nat) returns (r: nat)
    requires Ready(vol)
    modifies vol`nfree, vol`log, vol.cache
    ensures Ready(vol) && Still(vol) && vol.log == old(vol.log)
    ensures vol.Fat() == old(vol.Fat()) && vol.Rest() == old(vol.Rest()) && vol.cache.logical == old(vol.cache.logical)
    ensures r == Next(vol.Fat(), c) || (r == 1 && !vol.cache.reliableReads)
  {
    r := vol.NextCluster(c);
  }

  /** `link_fat` as a write, on a volume in good order. */
  method Link(vol: Volume, c: nat, v: nat) returns (ok: bool)
    requires Ready(vol) && vol.InRange(c) && (v == FREE || v == LONG_LAST_CLUSTER || vol.InRange(v))
    modifies vol`nfree, vol`log, vol.cache
    ensures Ready(vol) && vol.Rest() == old(vol.Rest())
    ensures ok ==> vol.Fat() == old(vol.Fat())[c := v]
    ensures Safe(vol.Fat()) ==> LoggedSafely(old(vol.log), vol.log)
    ensures !ok ==>
              vol.Fat() == old(vol.Fat()) && vol.cache.logical == old(vol.cache.logical) && !vol.cache.reliableReads
  {
    hide Volume.Valid, Dpb.Fat;
    ok := vol.Link(c, v);
  }

  /** The first half of `extend`: a free cluster, marked as the end of a chain. */
  method Claim(vol: Volume) returns (n: nat)
    requires Ready(vol) && Safe(vol.Fat())
    modifies vol, vol.cache
    ensures Ready(vol) && Safe(vol.Fat()) && vol.Rest() == old(vol.Rest())
    ensures n == LONG_LAST_CLUSTER ==> vol.Fat() == old(vol.Fat()) && vol.cache.logical == old(vol.cache.logical)
    ensures n == LONG_LAST_CLUSTER && vol.cache.reliableReads ==> FreeCount(vol.Fat()) == 0
    ensures n != LONG_LAST_CLUSTER ==>
              && vol.InRange(n) && old(vol.Fat())[n] == FREE && vol.Fat() == old(vol.Fat())[n := LONG_LAST_CLUSTER]
    ensures LoggedSafely(old(vol.log), vol.log)
  {
    hide *;
    EndMarks();
    ReadyParts(vol);
    LoggedTransitive(vol.log, [], []);
    n := FindFatFree(vol);
    if n == LONG_LAST_CLUSTER {
      return;
    }
    InRangeIs(vol, n);
    ClaimSafe(vol.Fat(), n);
    var ok := Link(vol, n, LONG_LAST_CLUSTER);
    if !ok {
      n := LONG_LAST_CLUSTER;
    }
  }

  /** One turn of `wipe_out_clusters`; `next` is 0 or 1 where it has to stop. */
  method WipeOne(vol: Volume, at: nat) returns (next: nat)
    requires Ready(vol)
    modifies vol, vol.cache
    ensures Ready(vol) && vol.Rest() == old(vol.Rest()) && (Safe(vol.Fat()) ==> LoggedSafely(old(vol.log), vol.log))
    ensures next > 1 ==>
              2 <= at < |old(vol.Fat())| && old(vol.Fat())[at] != FREE && vol.Fat() == old(vol.Fat())[at := FREE]
                         && next == Next(old(vol.Fat()), at)
    ensures next <= 1 ==> vol.Fat() == old(vol.Fat()) && (Next(vol.Fat(), at) > 1 ==> !vol.cache.reliableReads)
    ensures vol.hint == if next > 1 && (old(vol.hint) == 0 || at < old(vol.hint)) then at else old(vol.hint)
  {
    hide *;
    EndMarks();
    ReadyParts(vol);
    LoggedTransitive(vol.log, vol.log, vol.log);
    NextUsed(vol.Fat(), at);
    next := NextOf(vol, at);
    if next > 1 {
      InRangeIs(vol, at);
      var ok := Link(vol, at, 0);
      if ok {
        LowerHint(vol, at);
      } else {
        next := 1;
      }
    }
  }

  /** The search hint is as before or one of the clusters freed, and above none of them. */
  ghost predicate HintFollows(fat: seq<nat>, g: seq<nat>, h0: nat, h: nat) {
    && |g| == |fat| && (forall c :: 2 <= c < |fat| && fat[c] != 0 && g[c] == 0 ==> 0 < h <= c)
    && (h == h0 || (2 <= h < |fat| && fat[h] != 0 && g[h] == 0 && (h0 == 0 || h < h0)))
  }

  lemma HintFollowsOn(fat: seq<nat>, g: seq<nat>, h0: nat, h: nat, at: nat)
    ensures HintFollows(fat, fat, h0, h0)
    ensures OnlyFreed(fat, g) && HintFollows(fat, g, h0, h) && 2 <= at < |g| && g[at] != FREE ==>
              HintFollows(fat, g[at := FREE], h0, if h == 0 || at < h then at else h)
  {
  }

  /** `wipe_out_clusters`: frees the clusters from `st` on. It ends on every FAT, damaged ones included.
      `cs` is the chain that starts at `st`, if there is one and it is known. */
  method WipeOutClusters(vol: Volume, st: nat, ghost cs: seq<nat>) returns (ghost k: nat)
    requires Ready(vol)
    requires cs != [] ==> WipedTo(vol.Fat(), vol.Fat(), cs, 0) && cs[0] == st
    modifies vol, vol.cache
    ensures Ready(vol) && vol.Rest() == old(vol.Rest()) && OnlyFreed(old(vol.Fat()), vol.Fat())
    ensures cs != [] ==> WipedTo(old(vol.Fat()), vol.Fat(), cs, k) && LoggedSafely(old(vol.log), vol.log)
    ensures cs != [] && vol.cache.reliableReads ==> k == |cs|
    ensures HintFollows(old(vol.Fat()), vol.Fat(), old(vol.hint), vol.hint)
    ensures st == LONG_LAST_CLUSTER ==> vol.Fat() == old(vol.Fat()) && LoggedSafely(old(vol.log), vol.log)
  {
    hide *;
    EndMarks();
    ReadyParts(vol);
    ghost var f0, l0, h0 := vol.Fat(), vol.log, vol.hint;
    FreedTransitive(f0, f0, 0);
    HintFollowsOn(f0, f0, h0, h0, 0);
    LoggedTransitive(l0, l0, l0);
    WipedRange(f0, f0, cs, 0);
    k := 0;
    var at := st;
    while at != LONG_LAST_CLUSTER
      invariant Ready(vol) && vol.Rest() == old(vol.Rest()) && OnlyFreed(f0, vol.Fat())
      invariant HintFollows(f0, vol.Fat(), h0, vol.hint)
      invariant cs != [] ==> WipedTo(f0, vol.Fat(), cs, k) && LoggedSafely(l0, vol.log)
                             && k <= |cs| && at == if k < |cs| then cs[k] else LONG_LAST_CLUSTER
      invariant st == LONG_LAST_CLUSTER ==> at == st && vol.Fat() == f0 && LoggedSafely(l0, vol.log)
      decreases |f0| - FreeCount(vol.Fat())
    {
      ghost var g, l := vol.Fat(), vol.log;
      if cs != [] {
        WipeStep(f0, g, cs, k);
      }
      FreedTransitive(f0, g, at);
      HintFollowsOn(f0, g, h0, vol.hint, at);
      var next := WipeOne(vol, at);
      LoggedTransitive(l0, l, vol.log);
      if next <= 1 {
        break;
      }
      FreeCountUpdate(g, at, 0);
      at := next;
      k := k + 1;
    }
    WipedRange(f0, vol.Fat(), cs, k);
  }

  lemma WipedRange(fat: seq<nat>, g: seq<nat>, cs: seq<nat>, k: nat)
    ensures WipedTo(fat, g, cs, k) && k < |cs| ==> cs[k] != LONG_LAST_CLUSTER
  {
  }

  lemma NextUsed(fat: seq<nat>, c: nat)
    ensures Next(fat, c) > 1 ==> 2 <= c < |fat| && fat[c] != FREE
  {
  }

  lemma InRangeIs(vol: Volume, c: nat)
    requires vol.dpb.Valid()
    ensures vol.InRange(c) <==> 2 <= c < |vol.Fat()|
  {
  }

  /** The search hint follows a cluster freed below it. */
  method LowerHint(vol: Volume, st: nat)
    requires Ready(vol) && vol.InRange(st)
    modifies vol`hint
    ensures Ready(vol) && vol.hint == if old(vol.hint) == 0 || st < old(vol.hint) then st else old(vol.hint)
  {
    if vol.hint == UNKNCLUSTER || vol.hint > st {
      vol.hint := st;
    }
  }

  /** The disk has what the kernel sees of the drive, and every FAT copy what the first has. */
  ghost predicate DiskCurrent(vol: Volume)
    reads vol, vol.cache
  {
    && vol.dpb.CopiesEqual(vol.cache.disk)
    && forall b :: b in vol.cache.logical && b.unit == vol.dpb.unit ==>
         b in vol.cache.disk && vol.cache.disk[b] == vol.cache.logical[b]
  }

  lemma CurrentIs(vol: Volume)
    requires vol.dpb.CopiesEqual(vol.cache.disk)
    requires forall b :: b in vol.cache.logical && b.unit == vol.dpb.unit ==>
               b in vol.cache.disk && vol.cache.disk[b] == vol.cache.logical[b]
    ensures DiskCurrent(vol)
  {
  }

  /** `flush_buffers` for the drive of a volume: afterwards the disk holds what the kernel sees, and unless a write
      failed that is what it saw before, in every FAT copy. */
  method FlushDrive(vol: Volume) returns (ok: bool)
    requires vol.dpb.Valid() && vol.cache.Valid() && MirrorsFollow(vol.cache.geometry, vol.cache.State())
    modifies vol.cache
    ensures vol.cache.Valid() && (vol.cache.reliableWrites ==> ok)
    ensures forall b :: b in vol.cache.logical && b.unit == vol.dpb.unit ==>
              b in vol.cache.disk && vol.cache.disk[b] == vol.cache.logical[b]
    ensures ok ==> vol.cache.logical == old(vol.cache.logical)
    ensures ok ==> vol.Fat() == old(vol.Fat()) && vol.Rest() == old(vol.Rest())
    ensures ok ==> MirrorsFollow(vol.cache.geometry, vol.cache.State())
    ensures ok ==> CopiesAgree(vol.cache.geometry, vol.cache.disk, vol.dpb.unit)
    ensures old(Ready(vol)) ==> ok && Ready(vol) && vol.dpb.CopiesEqual(vol.cache.disk)
  {
    hide *;
    ghost var ready := Ready(vol);
    if ready {
      ReadyIs(vol);
      vol.MountedParts();
    }
    FatIs(vol);
    ok := vol.cache.FlushBuffers(vol.dpb.unit);
    FatIs(vol);
    if ready {
      CopiesShown(vol.dpb, vol.cache.geometry, vol.cache.disk);
      vol.Remounted();
      NowReady(vol);
    }
  }

  lemma CountPrefix(fat: seq<nat>, i: nat)
    requires 2 <= i <= |fat|
    ensures FreeCount(fat[..2]) == 0 && fat[..|fat|] == fat
    ensures i < |fat| ==> FreeCount(fat[..i + 1]) == FreeCount(fat[..i]) + if fat[i] == FREE then 1 else 0
  {
    if i < |fat| {
      assert fat[..i + 1][..i] == fat[..i];
    }
  }

  lemma NoneBefore(fat: seq<nat>, i: nat)
    requires 2 <= i < |fat| && fat[i] == FREE
    ensures FreeCount(fat[..i]) == 0 ==> FirstFrom(fat, 2, i)
  {
    FreeCountZero(fat[..i]);
    assert forall c :: 2 <= c < i ==> fat[..i][c] == fat[c];
  }

  /** `dos_free`: the number of free clusters, counted when it is not known yet. */
  method DosFree(vol: Volume) returns (n: nat)
    requires Ready(vol)
    modifies vol, vol.cache
    ensures vol.Valid() && vol.HintOk() && vol.cache.logical == old(vol.cache.logical) && vol.log == old(vol.log)
    ensures vol.cache.reliableReads ==> Ready(vol) && n == vol.nfree == FreeCount(vol.Fat())
    ensures n == vol.nfree
    ensures old(vol.nfree) != vol.dpb.UnknownFree() || (n == 0 && vol.cache.reliableReads) ==> vol.hint == old(vol.hint)
    ensures old(vol.nfree) == vol.dpb.UnknownFree() && n > 0 && vol.cache.reliableReads ==>
              FirstFrom(vol.Fat(), 2, vol.hint)
  {
    hide *;
    EndMarks();
    ReadyIs(vol);
    NowReady(vol);
    if vol.nfree != vol.dpb.UnknownFree() {
      return vol.nfree;
    }
    ghost var fat := vol.Fat();
    var size := vol.dpb.MaxCluster();
    CountPrefix(fat, 2);
    n := 0;
    var i := 2;
    var first := vol.hint;
    while i <= size
      invariant vol.Valid() && vol.cache.logical == old(vol.cache.logical) && vol.log == old(vol.log)
      invariant vol.hint == old(vol.hint)
      invariant 2 <= i <= |fat| && vol.Fat() == fat
      invariant vol.cache.reliableReads ==> n == FreeCount(fat[..i])
      invariant first == old(vol.hint) || 2 <= first <= size
      invariant vol.cache.reliableReads ==> if n == 0 then first == old(vol.hint) else FirstFrom(fat, 2, first)
    {
      CountPrefix(fat, i);
      InRangeIs(vol, i);
      var free := vol.IsFreeCluster(i);
      FatIs(vol);
      if free {
        if n == 0 {
          NoneBefore(fat, i);
          first := i;
        }
        n := n + 1;
      }
      i := i + 1;
    }
    CountPrefix(fat, |fat|);
    vol.MountedParts();
    vol.hint := first;
    vol.nfree := n;
    vol.Remounted();
    FatIs(vol);
    NowReady(vol);
  }

  lemma NextInOpen(fat: seq<nat>, start: nat, cs: seq<nat>, i: nat)
    requires Safe(fat) && FileChain(fat, start, cs) && i < |cs|
    ensures 2 <= cs[i] < |fat| && Next(fat, cs[i]) == if i + 1 < |cs| then cs[i + 1] else LONG_LAST_CLUSTER
    ensures forall k :: 0 <= k < |cs| ==> 2 <= cs[k] < |fat| <= LONG_BAD
    ensures start != FREE && cs[0] == start
    ensures Next(fat, cs[i]) >= 2 && (Next(fat, cs[i]) == LONG_LAST_CLUSTER <==> i + 1 == |cs|)
  {
    NextInChain(fat, cs, i);
  }

  lemma StartOfChain(fat: seq<nat>, start: nat, cs: seq<nat>)
    requires FileChain(fat, start, cs)
    ensures start != FREE || cs == []
    ensures cs != [] ==> cs[0] == start
  {
  }

  lemma HangInOpen(fat: seq<nat>, start: nat, cs: seq<nat>, n: nat)
    requires Safe(fat) && FileChain(fat, start, cs) && cs != []
    requires 2 <= n < |fat| && n !in cs && fat[n] == LONG_LAST_CLUSTER && Unpointed(fat, n)
    ensures var last := cs[|cs| - 1];
            last < |fat| && Safe(fat[last := n]) && FileChain(fat[last := n], start, cs + [n])
  {
    HangKeeps(fat, cs, n);
  }

  /** `struct f_node`, the parts that place a file on its volume. */
  class FNode {
    const vol: Volume
    var start: nat
    var size: nat
    var offset: nat
    var cluster: nat
    var clusterOffset: nat

    constructor (vol: Volume, start: nat, size: nat, offset: nat, cluster: nat, clusterOffset: nat)
      ensures this.vol == vol && this.start == start && this.size == size && this.offset == offset
      ensures this.cluster == cluster && this.clusterOffset == clusterOffset
    {
      this.vol, this.start, this.size, this.offset := vol, start, size, offset;
      this.cluster, this.clusterOffset := cluster, clusterOffset;
    }

    /** The cached position is a position in chain `cs`. */
    ghost predicate At(cs: seq<nat>)
      reads this
    {
      if cs == [] then cluster == FREE && clusterOffset == 0
      else clusterOffset < |cs| && cluster == cs[clusterOffset]
    }

    /** A file with chain `cs` on a volume in good order. */
    ghost predicate Open(cs: seq<nat>)
      reads this, vol, vol.cache
    {
      Ready(vol) && Safe(vol.Fat()) && FileChain(vol.Fat(), start, cs) && At(cs)
    }

    /** The second half of `extend` for a file that has clusters: the last one is linked to `n`. */
    method Hang(ghost cs: seq<nat>, n: nat) returns (ok: bool)
      requires Open(cs) && cs != [] && vol.InRange(n) && n !in cs && vol.Fat()[n] == LONG_LAST_CLUSTER
      requires Unpointed(vol.Fat(), n)
      modifies vol, vol.cache
      ensures Ready(vol) && Safe(vol.Fat()) && vol.Rest() == old(vol.Rest())
      ensures ok ==> clusterOffset == |cs| - 1 && cluster < |vol.Fat()| && vol.Fat() == old(vol.Fat())[cluster := n]
                     && FileChain(vol.Fat(), start, cs + [n])
      ensures LoggedSafely(old(vol.log), vol.log)
      ensures !ok ==>
                && vol.Fat() == old(vol.Fat()) && vol.cache.logical == old(vol.cache.logical)
                && (vol.cache.reliableReads ==> clusterOffset != |cs| - 1)
    {
      hide *;
      EndMarks();
      OpenParts(cs);
      ghost var f1 := vol.Fat();
      LoggedTransitive(vol.log, [], []);
      NextInOpen(f1, start, cs, clusterOffset);
      InRangeIs(vol, n);
      HangInOpen(f1, start, cs, n);
      InRangeIs(vol, cluster);
      var next := NextOf(vol, cluster);
      if next != LONG_LAST_CLUSTER {
        return false;
      }
      ok := Link(vol, cluster, n);
    }

    /** `extend`: one more cluster at the end of the chain. */
    method Extend(ghost cs: seq<nat>) returns (r: nat, ghost grown: seq<nat>)
      requires Open(cs)
      modifies this`start, vol, vol.cache
      ensures Ready(vol) && Safe(vol.Fat()) && FileChain(vol.Fat(), start, grown) && vol.Rest() == old(vol.Rest())
      ensures r >= 2 && grown == if r == LONG_LAST_CLUSTER then cs else cs + [r]
      ensures Grown(old(vol.Fat()), vol.Fat(), cs, grown)
      ensures LoggedSafely(old(vol.log), vol.log)
      ensures r != LONG_LAST_CLUSTER && cs != [] ==> clusterOffset == |cs| - 1
      ensures vol.cache.reliableReads && (cs == [] || clusterOffset == |cs| - 1) ==>
                && FreeCount(vol.Fat()) + |grown| == FreeCount(old(vol.Fat())) + |cs|
                && (r == LONG_LAST_CLUSTER ==> FreeCount(vol.Fat()) == 0)
    {
      hide *;
      EndMarks();
      OpenParts(cs);
      ghost var f0, l0 := vol.Fat(), vol.log;
      LoggedTransitive(l0, [], []);
      GrownSame(f0, cs);
      grown := cs;
      r := Claim(vol);
      if r == LONG_LAST_CLUSTER {
        return;
      }
      ghost var l1 := vol.log;
      InRangeIs(vol, r);
      ClaimKeeps(f0, start, cs, r);
      FreeCountUpdate(f0, r, LONG_LAST_CLUSTER);
      ghost var f1 := vol.Fat();
      if cluster == FREE {
        start := r;
        grown := [r];
      } else {
        NextInOpen(f0, start, cs, clusterOffset);
        GrownByOne(f0, cs, r);
        OpenWhole(cs);
        var ok := Hang(cs, r);
        LoggedTransitive(l0, l1, vol.log);
        if ok {
          FreeCountUpdate(f1, cluster, r);
          grown := cs + [r];
        } else {
          r := LONG_LAST_CLUSTER;
        }
      }
    }

    /** The cluster after the current one, which a write may have to add; 0 or 1 for a chain into the void,
        LONG_LAST_CLUSTER for a read past the end or a full disk. */
    method Following(write: bool, ghost cs: seq<nat>) returns (next: nat, ghost grown: seq<nat>)
      requires Open(cs) && cs != []
      modifies this`start, vol, vol.cache
      ensures Ready(vol) && Safe(vol.Fat()) && FileChain(vol.Fat(), start, grown)
      ensures Kept(old(Shot(vol)), Shot(vol), cs, grown)
      ensures if 1 < next != LONG_LAST_CLUSTER then grown == if clusterOffset + 1 < |cs| then cs else cs + [next]
              else grown == cs
      ensures 1 < next != LONG_LAST_CLUSTER ==> clusterOffset + 1 < |grown| && grown[clusterOffset + 1] == next
      ensures !write ==>
                && grown == cs && start == old(start) && vol.cache.logical == old(vol.cache.logical)
                && vol.Fat() == old(vol.Fat())
      ensures next <= 1 ==> !vol.cache.reliableReads
      ensures next == LONG_LAST_CLUSTER && vol.cache.reliableReads ==>
                clusterOffset == |cs| - 1 && (write ==> FreeCount(vol.Fat()) == 0)
    {
      hide *;
      EndMarks();
      OpenParts(cs);
      NextInOpen(vol.Fat(), start, cs, clusterOffset);
      LoggedTransitive(vol.log, [], []);
      GrownSame(vol.Fat(), cs);
      ghost var before := Shot(vol);
      grown := cs;
      next := NextOf(vol, cluster);
      if next == LONG_LAST_CLUSTER && write {
        OpenWhole(cs);
        next, grown := Extend(cs);
      }
      KeptWhole(before, Shot(vol), cs, grown);
    }

    /** One turn of the loop of `map_cluster`. */
    method Advance(write: bool, ghost cs: seq<nat>) returns (r: int, ghost grown: seq<nat>)
      requires Open(cs) && cs != []
      modifies this`start, this`cluster, this`clusterOffset, vol, vol.cache
      ensures Open(grown) && Kept(old(Shot(vol)), Shot(vol), cs, grown)
      ensures r == SUCCESS ==>
                clusterOffset == old(clusterOffset) + 1 && |grown| == if |cs| > clusterOffset then |cs| else |cs| + 1
      ensures r != SUCCESS ==> grown == cs && clusterOffset == old(clusterOffset)
      ensures r == SUCCESS || r == DE_SEEK || (write && r == DE_HNDLDSKFULL)
      ensures !write ==>
                && grown == cs && start == old(start) && vol.cache.logical == old(vol.cache.logical)
                && vol.Fat() == old(vol.Fat())
      ensures r == DE_SEEK && vol.cache.reliableReads ==> !write && clusterOffset == |cs| - 1
      ensures r == DE_HNDLDSKFULL && vol.cache.reliableReads ==> clusterOffset == |cs| - 1 && FreeCount(vol.Fat()) == 0
    {
      hide *;
      Codes();
      EndMarks();
      OpenParts(cs);
      var next;
      next, grown := Following(write, cs);
      if next <= 1 {
        r := DE_SEEK;
      } else if next == LONG_LAST_CLUSTER {
        r := if write then DE_HNDLDSKFULL else DE_SEEK;
      } else {
        cluster, clusterOffset, r := next, clusterOffset + 1, SUCCESS;
      }
      OpenWhole(grown);
    }

    lemma OpenParts(cs: seq<nat>)
      requires Open(cs)
      ensures vol.dpb.Valid()
      ensures Ready(vol) && Safe(vol.Fat()) && FileChain(vol.Fat(), start, cs)
      ensures if cs == [] then cluster == FREE && clusterOffset == 0
              else clusterOffset < |cs| && cluster == cs[clusterOffset]
      ensures cluster == FREE <==> cs == []
      ensures cs != [] ==> IsChain(vol.Fat(), cs) && start == cs[0]
    {
      if cs != [] {
        NextInOpen(vol.Fat(), start, cs, clusterOffset);
      }
    }

    lemma OpenWhole(cs: seq<nat>)
      requires Ready(vol) && Safe(vol.Fat()) && FileChain(vol.Fat(), start, cs)
      requires if cs == [] then cluster == FREE && clusterOffset == 0
               else clusterOffset < |cs| && cluster == cs[clusterOffset]
      ensures Open(cs)
    {
    }

    /** The loop of `map_cluster`: from the cached position forward to relative cluster `rel`. */
    method Walk(rel: nat, write: bool, ghost cs: seq<nat>) returns (r: int, ghost grown: seq<nat>)
      requires Open(cs) && cs != [] && clusterOffset <= rel
      modifies this`start, this`cluster, this`clusterOffset, vol, vol.cache
      ensures Open(grown) && Kept(old(Shot(vol)), Shot(vol), cs, grown)
      ensures r == SUCCESS ==> rel < |grown| && clusterOffset == rel && cluster == grown[rel]
      ensures r == SUCCESS ==> |grown| == if rel < |cs| then |cs| else rel + 1
      ensures r == SUCCESS || r == DE_SEEK || (write && r == DE_HNDLDSKFULL)
      ensures !write ==>
                && grown == cs && start == old(start) && vol.cache.logical == old(vol.cache.logical)
                && vol.Fat() == old(vol.Fat())
      ensures r != SUCCESS ==> clusterOffset < rel
      ensures vol.cache.reliableReads && r == DE_SEEK ==> !write && |cs| <= rel
      ensures vol.cache.reliableReads && r == DE_HNDLDSKFULL ==>
                FreeCount(vol.Fat()) == 0 && |grown| <= rel && clusterOffset == |grown| - 1
    {
      hide *;
      Codes();
      OpenParts(cs);
      ghost var before := Shot(vol);
      KeptSame(before, cs);
      grown, r := cs, SUCCESS;
      while clusterOffset != rel
        invariant Open(grown) && Kept(before, Shot(vol), cs, grown)
        invariant clusterOffset <= rel && clusterOffset < |grown|
        invariant |grown| == if clusterOffset < |cs| then |cs| else clusterOffset + 1
        invariant !write ==>
                  && grown == cs && start == old(start) && vol.cache.logical == old(vol.cache.logical)
                  && vol.Fat() == old(vol.Fat())
        decreases rel - clusterOffset
      {
        ghost var middle, so_far, st := Shot(vol), grown, start;
        OpenParts(grown);
        r, grown := Advance(write, grown);
        KeptTransitive(before, middle, Shot(vol), cs, so_far, grown, st);
        if r != SUCCESS {
          OpenParts(grown);
          return;
        }
      }
      OpenParts(grown);
      r := SUCCESS;
    }

    /** The first cluster of an empty file that is written to. */
    method Begin(ghost cs: seq<nat>) returns (ok: bool, ghost grown: seq<nat>)
      requires Open(cs) && cs == []
      modifies this`start, this`cluster, vol, vol.cache
      ensures Open(grown) && Kept(old(Shot(vol)), Shot(vol), cs, grown)
      ensures if ok then |grown| == 1 else grown == []
      ensures !ok && vol.cache.reliableReads ==> FreeCount(vol.Fat()) == 0
    {
      hide *;
      EndMarks();
      OpenParts(cs);
      ghost var before := Shot(vol);
      var first;
      first, grown := Extend(cs);
      KeptWhole(before, Shot(vol), cs, grown);
      ok := first != LONG_LAST_CLUSTER;
      if ok {
        cluster := first;
      }
      OpenWhole(grown);
    }

    /** `map_cluster`: moves the cached position to the cluster of the file offset, for a write growing the
        chain as far as needed. Wherever the cached position was, the result is the one of a walk from the start. */
    method MapCluster(write: bool, ghost cs: seq<nat>) returns (r: int, ghost grown: seq<nat>)
      requires Open(cs)
      modifies this`start, this`cluster, this`clusterOffset, vol, vol.cache
      ensures Open(grown) && Kept(old(Shot(vol)), Shot(vol), cs, grown)
      ensures r == SUCCESS ==>
                && Rel(vol.dpb, offset) < |grown| && clusterOffset == Rel(vol.dpb, offset)
                && cluster == grown[Rel(vol.dpb, offset)]
      ensures r == SUCCESS ==> |grown| == if Rel(vol.dpb, offset) < |cs| then |cs| else Rel(vol.dpb, offset) + 1
      ensures r == SUCCESS || r == DE_SEEK || (write && r == DE_HNDLDSKFULL)
      ensures !write ==>
                && grown == cs && start == old(start) && vol.cache.logical == old(vol.cache.logical)
                && vol.Fat() == old(vol.Fat())
      ensures r != SUCCESS && grown != [] ==> clusterOffset < Rel(vol.dpb, offset)
      ensures vol.cache.reliableReads && r == DE_SEEK ==> !write && |cs| <= Rel(vol.dpb, offset)
      ensures vol.cache.reliableReads && r == DE_HNDLDSKFULL ==>
                FreeCount(vol.Fat()) == 0 && |grown| <= Rel(vol.dpb, offset)
                && (grown == [] || clusterOffset == |grown| - 1)
    {
      hide *;
      Codes();
      EndMarks();
      OpenParts(cs);
      ghost var before := Shot(vol);
      KeptSame(before, cs);
      var relcluster := Rel(vol.dpb, offset);
      grown := cs;
      if cluster == FREE {
        if !write {
          return DE_SEEK, grown;
        }
        var ok;
        ok, grown := Begin(cs);
        if !ok {
          return DE_HNDLDSKFULL, grown;
        }
      }
      OpenParts(grown);
      if relcluster < clusterOffset {
        StartOfChain(vol.Fat(), start, grown);
        cluster := start;
        clusterOffset := 0;
        OpenWhole(grown);
      }
      ghost var middle, so_far, st := Shot(vol), grown, start;
      OpenParts(grown);
      r, grown := Walk(relcluster, write, grown);
      KeptTransitive(before, middle, Shot(vol), cs, so_far, grown, st);
    }
  }
}
