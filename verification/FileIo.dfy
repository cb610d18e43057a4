/** `rwblock` of kernel/fatfs.c: files read and written as sequences of bytes, part of a
    sector through the cache or many sectors at once past it. */
module FileIo {
  import opened ErrorCodes
  import opened Arith
  import opened FatPacking
  import opened BlockIo
  import opened FatTable
  import opened FatChains
  import opened FatFiles
  import opened FileSize
  import opened FileData
  import opened DataBlocks

  /** An open file with chain `cs` that has clusters for all its bytes, on a drive with all its sectors. */
  ghost predicate FileOk(fn: FNode, cs: seq<nat>)
    reads fn, fn.vol, fn.vol.cache
  {
    fn.Open(cs) && DataThere(fn.vol.dpb, fn.vol.Rest()) && ClustersFor(fn.vol.dpb, fn.size) <= |cs|
  }

  lemma ChainClusters(fat: seq<nat>, start: nat, cs: seq<nat>)
    requires Safe(fat) && FileChain(fat, start, cs)
    ensures Clusters(cs) && forall i :: 0 <= i < |cs| ==> 2 <= cs[i] < |fat|
  {
    if cs != [] {
      NoCycle(fat, cs);
    }
  }

  lemma FileSectorIsData(d: Dpb, cs: seq<nat>, q: nat)
    requires d.Valid() && q / d.spc < |cs| && 2 <= cs[q / d.spc] <= d.MaxCluster()
    ensures InData(d, FileBlock(d, cs, q))
  {
    BlockCluster(d, cs, q);
  }

  /** The volume has the sectors of the file. */
  lemma FileSector(vol: Volume, start: nat, cs: seq<nat>, q: nat, b: Block)
    requires vol.dpb.spc > 0 && Clusters(cs) && SectorAt(vol.dpb, cs, q, b)
    requires Ready(vol) && Safe(vol.Fat()) && FileChain(vol.Fat(), start, cs) && DataThere(vol.dpb, vol.Rest())
    ensures HasSector(vol, b)
  {
    hide *;
    ReadyParts(vol);
    SectorIsAt(vol.dpb, cs, q, b);
    ChainClusters(vol.Fat(), start, cs);
    FileSectorIsData(vol.dpb, cs, q);
    SectorWhole(vol, b);
  }

  lemma SectorIsAt(d: Dpb, cs: seq<nat>, q: nat, b: Block)
    requires d.spc > 0 && Clusters(cs) && SectorAt(d, cs, q, b)
    ensures q / d.spc < |cs| && 2 <= cs[q / d.spc] && FileBlock(d, cs, q) == b
  {
  }

  lemma SectorWhole(vol: Volume, b: Block)
    requires vol.dpb.spc > 0 && Ready(vol) && InData(vol.dpb, b) && DataThere(vol.dpb, vol.Rest())
    ensures HasSector(vol, b)
  {
  }

  /** Offset, sector and byte. */
  lemma OffsetParts(d: Dpb, offset: nat)
    requires d.secsize > 0 && PowerUpTo256(d.spc)
    ensures offset == offset / d.secsize * d.secsize + offset % d.secsize && offset % d.secsize < d.secsize
    ensures Rel(d, offset) == offset / d.secsize / d.spc
    ensures offset / d.secsize % 256 % d.spc == offset / d.secsize % d.spc
  {
    IntParts(offset, d.secsize);
    Masked(offset / d.secsize, d.spc);
  }

  /** The low byte of a sector number is enough to find its place in a cluster. */
  lemma Masked(q: nat, p: nat)
    requires PowerUpTo256(p)
    ensures q % 256 % p == q % p
  {
    assert 256 % p == 0;
    var a, r, k := q / 256, q % 256, 256 / p;
    var b, t := r / p, r % p;
    assert q == a * 256 + r && r == b * p + t && 256 == k * p;
    Reassociate(a, k, p);
    Distribute(a * k, b, p);
    DivModUnique(q, p, a * k + b, t);
  }

  lemma SectorStart(d: Dpb, q: nat)
    requires d.secsize > 0 && d.spc > 0
    ensures q * d.secsize / d.secsize == q && q * d.secsize % d.secsize == 0 && Rel(d, q * d.secsize) == q / d.spc
  {
    ByteInSector(d.secsize, q, 0);
  }

  /** Sectors of one cluster follow each other. */
  lemma RunStart(d: Dpb, cs: seq<nat>, q: nat, n: nat)
    requires d.spc > 0 && Clusters(cs) && q / d.spc < |cs| && n <= d.spc - q % d.spc
    ensures Contiguous(d, cs, q, n, FileBlock(d, cs, q).num)
  {
    var lo := FileBlock(d, cs, q).num;
    forall t: nat | t < n ensures SectorAt(d, cs, q + t, At(d.unit, lo, t)) {
      DivModUnique(q + t, d.spc, q / d.spc, q % d.spc + t);
    }
  }

  /** A run goes on into the next cluster of the file when that is the next on the disk. */
  lemma RunGoesOn(d: Dpb, cs: seq<nat>, q: nat, n: nat, m: nat, lo: nat)
    requires d.spc > 0 && Clusters(cs) && Contiguous(d, cs, q, n, lo) && (q + n) % d.spc == 0
    requires (q + n) / d.spc < |cs| && Clus2Phys(d, cs[(q + n) / d.spc]) == lo + n && m <= n + d.spc
    ensures Contiguous(d, cs, q, m, lo)
  {
    forall t: nat | t < m ensures SectorAt(d, cs, q + t, At(d.unit, lo, t)) {
      if t >= n {
        DivModUnique(q + t, d.spc, (q + n) / d.spc, t - n);
      } else {
        assert SectorAt(d, cs, q + t, At(d.unit, lo, t));
      }
    }
  }

  lemma RunInGrown(d: Dpb, cs: seq<nat>, grown: seq<nat>, q: nat, n: nat, lo: nat)
    requires d.spc > 0 && Clusters(cs) && Clusters(grown) && cs <= grown && Contiguous(d, cs, q, n, lo)
    ensures Contiguous(d, grown, q, n, lo)
  {
    forall t: nat | t < n ensures SectorAt(d, grown, q + t, At(d.unit, lo, t)) {
      SectorInGrown(d, cs, grown, q + t, At(d.unit, lo, t));
    }
  }

  lemma SectorInGrown(d: Dpb, cs: seq<nat>, grown: seq<nat>, q: nat, b: Block)
    requires d.spc > 0 && Clusters(cs) && Clusters(grown) && cs <= grown
    ensures SectorAt(d, cs, q, b) ==> SectorAt(d, grown, q, b)
  {
    if SectorAt(d, cs, q, b) {
      assert grown[q / d.spc] == cs[q / d.spc];
    }
  }

  lemma NextBoundary(q: nat, n: nat, p: nat)
    requires p > 0
    ensures n == p - q % p ==> (q + n) % p == 0
    ensures (q + n) % p == 0 ==> (q + (n + p)) % p == 0
  {
    if n == p - q % p {
      MulStep(q / p, p);
      DivModUnique(q + n, p, q / p + 1, 0);
    }
    if (q + n) % p == 0 {
      MulStep((q + n) / p, p);
      DivModUnique(q + (n + p), p, (q + n) / p + 1, 0);
    }
  }

  /** One turn of the loop that lengthens a run: is the cluster after it its neighbour on the disk? */
  method Neighbour(fn: FNode, write: bool, q: nat, n: nat, lo: nat, ghost cs: seq<nat>)
    returns (more: bool, ghost grown: seq<nat>)
    requires fn.Open(cs) && Clusters(cs) && fn.vol.dpb.spc > 0
    requires fn.offset == (q + n) * fn.vol.dpb.secsize && (q + n) % fn.vol.dpb.spc == 0
    requires Contiguous(fn.vol.dpb, cs, q, n, lo)
    modifies fn, fn.vol, fn.vol.cache
    ensures fn.Open(grown) && Clusters(grown) && cs <= grown && Kept(old(Shot(fn.vol)), Shot(fn.vol), cs, grown)
    ensures fn.size == old(fn.size) && fn.offset == old(fn.offset)
    ensures Contiguous(fn.vol.dpb, grown, q, if more then n + fn.vol.dpb.spc else n, lo)
    ensures !write ==> grown == cs && fn.vol.Fat() == old(fn.vol.Fat()) && fn.start == old(fn.start)
  {
    hide *;
    fn.OpenParts(cs);
    var d := fn.vol.dpb;
    SectorStart(d, q + n);
    ghost var before := Shot(fn.vol);
    var r;
    r, grown := fn.MapCluster(write, cs);
    fn.OpenParts(grown);
    ChainClusters(fn.vol.Fat(), fn.start, grown);
    GrownPrefix(before, Shot(fn.vol), cs, grown);
    RunInGrown(d, cs, grown, q, n, lo);
    more := r == SUCCESS && Clus2Phys(d, fn.cluster) == lo + n;
    if more {
      RunGoesOn(d, grown, q, n, n + d.spc, lo);
    }
  }

  lemma GrownPrefix(a: Snapshot, b: Snapshot, cs: seq<nat>, grown: seq<nat>)
    requires Kept(a, b, cs, grown)
    ensures cs <= grown
  {
  }

  lemma RunShorter(d: Dpb, cs: seq<nat>, q: nat, n: nat, m: nat, lo: nat)
    requires d.spc > 0 && Clusters(cs) && Contiguous(d, cs, q, n, lo) && m <= n
    ensures Contiguous(d, cs, q, m, lo)
  {
  }

  /** The part of a run in the first cluster. */
  lemma RunBegins(d: Dpb, cs: seq<nat>, q: nat, wanted: nat, n: nat)
    requires d.Valid() && Clusters(cs) && q / d.spc < |cs| && wanted > 0
    requires n == if d.spc - q % d.spc < wanted then d.spc - q % d.spc else wanted
    ensures d.spc > 0 && q % d.spc < d.spc && 1 <= n <= wanted && (n == wanted || (q + n) % d.spc == 0)
    ensures Clus2Phys(d, cs[q / d.spc]) + q % d.spc == FileBlock(d, cs, q).num
    ensures Contiguous(d, cs, q, n, FileBlock(d, cs, q).num)
  {
    RunStart(d, cs, q, n);
    NextBoundary(q, n, d.spc);
  }

  /** Offset of the byte after `n` sectors from sector `q` on. */
  function SectorOffset(q: nat, n: nat, s: nat): (offset: nat)
    ensures offset == (q + n) * s
  {
    MulMono(0, q + n, s);
    (q + n) * s
  }

  /** How many sectors of a wanted run one transfer takes: on through the following clusters for as long as they
      are neighbours on the disk. `lo` is the block of the first. */
  method GatherRun(fn: FNode, write: bool, q: nat, wanted: nat, lo: nat, ghost cs: seq<nat>)
    returns (n: nat, ghost grown: seq<nat>)
    requires fn.vol.dpb.spc > 0 && fn.vol.dpb.Valid() && Clusters(cs) && q / fn.vol.dpb.spc < |cs|
    requires lo == FileBlock(fn.vol.dpb, cs, q).num
    requires wanted > 0 && fn.offset == q * fn.vol.dpb.secsize
    requires fn.Open(cs)
    modifies fn, fn.vol, fn.vol.cache
    ensures Clusters(grown) && cs <= grown && Contiguous(fn.vol.dpb, grown, q, n, lo)
    ensures fn.size == old(fn.size) && fn.offset == (q + n) * fn.vol.dpb.secsize && 1 <= n <= wanted
    ensures fn.Open(grown) && Kept(old(Shot(fn.vol)), Shot(fn.vol), cs, grown)
    ensures !write ==> grown == cs && fn.vol.Fat() == old(fn.vol.Fat()) && fn.start == old(fn.start)
  {
    hide *;
    fn.OpenParts(cs);
    var d := fn.vol.dpb;
    ghost var before := Shot(fn.vol);
    KeptSame(before, cs);
    SpcPositive(d);
    n, grown := if d.spc - q % d.spc < wanted then d.spc - q % d.spc else wanted, cs;
    RunBegins(d, cs, q, wanted, n);
    fn.offset := SectorOffset(q, n, d.secsize);
    fn.OpenWhole(cs);
    while n < wanted
      invariant fn.Open(grown) && Clusters(grown) && cs <= grown && Kept(before, Shot(fn.vol), cs, grown)
      invariant fn.size == old(fn.size) && fn.offset == (q + n) * d.secsize
      invariant 1 <= n <= wanted && (n == wanted || (q + n) % d.spc == 0)
      invariant Contiguous(d, grown, q, n, lo)
      invariant !write ==> grown == cs && fn.vol.Fat() == old(fn.vol.Fat()) && fn.start == old(fn.start)
    {
      ghost var middle, so_far, st := Shot(fn.vol), grown, fn.start;
      fn.OpenParts(grown);
      var m;
      m, grown := Lengthen(fn, write, q, n, wanted, lo, grown);
      KeptTransitive(before, middle, Shot(fn.vol), cs, so_far, grown, st);
      if m == n {
        break;
      }
      n := m;
    }
  }

  /** The run goes on to the end of the next cluster, or as far as wanted, if that cluster is the neighbour. */
  method Lengthen(fn: FNode, write: bool, q: nat, n: nat, wanted: nat, lo: nat, ghost cs: seq<nat>)
    returns (m: nat, ghost grown: seq<nat>)
    requires fn.Open(cs) && Clusters(cs) && fn.vol.dpb.spc > 0 && n < wanted
    requires fn.offset == (q + n) * fn.vol.dpb.secsize && (q + n) % fn.vol.dpb.spc == 0
    requires Contiguous(fn.vol.dpb, cs, q, n, lo)
    modifies fn, fn.vol, fn.vol.cache
    ensures fn.Open(grown) && Clusters(grown) && cs <= grown && Kept(old(Shot(fn.vol)), Shot(fn.vol), cs, grown)
    ensures fn.size == old(fn.size) && fn.offset == (q + m) * fn.vol.dpb.secsize
    ensures n <= m <= wanted && (m == wanted || (q + m) % fn.vol.dpb.spc == 0)
    ensures Contiguous(fn.vol.dpb, grown, q, m, lo)
    ensures !write ==> grown == cs && fn.vol.Fat() == old(fn.vol.Fat()) && fn.start == old(fn.start)
  {
    hide *;
    var d := fn.vol.dpb;
    var more;
    more, grown := Neighbour(fn, write, q, n, lo, cs);
    m := n;
    if more {
      NextBoundary(q, n, d.spc);
      m := if n + d.spc < wanted then n + d.spc else wanted;
      RunShorter(d, grown, q, n + d.spc, m, lo);
      fn.OpenParts(grown);
      fn.offset := SectorOffset(q, m, d.secsize);
      fn.OpenWhole(grown);
    }
  }

  lemma SpcPositive(d: Dpb)
    requires d.Valid()
    ensures d.spc > 0 && d.secsize > 0 && PowerUpTo256(d.spc)
  {
  }

  /** Byte `i` of the file is `x`. */
  ghost predicate ByteIs(d: Dpb, r: Disk, cs: seq<nat>, i: nat, x: byte)
    requires d.secsize > 0 && d.spc > 0 && Clusters(cs)
  {
    Rel(d, i) < |cs| && FileByte(d, r, cs, i) == x
  }

  /** The file holds `bytes` from offset `at` on. */
  ghost predicate Reads(d: Dpb, r: Disk, cs: seq<nat>, at: nat, bytes: seq<byte>)
    requires d.secsize > 0 && d.spc > 0 && Clusters(cs)
  {
    forall k: nat :: k < |bytes| ==> ByteIs(d, r, cs, at + k, bytes[k])
  }

  lemma ReadsJoin(d: Dpb, r: Disk, cs: seq<nat>, at: nat, a: seq<byte>, b: seq<byte>)
    requires d.secsize > 0 && d.spc > 0 && Clusters(cs) && Reads(d, r, cs, at, a) && Reads(d, r, cs, at + |a|, b)
    ensures Reads(d, r, cs, at, a + b)
  {
    forall k: nat | k < |a + b| ensures ByteIs(d, r, cs, at + k, (a + b)[k]) {
      if k >= |a| {
        assert ByteIs(d, r, cs, at + |a| + (k - |a|), b[k - |a|]);
      }
    }
  }

  /** Part of a sector is part of the file. */
  lemma PartReads(d: Dpb, r: Disk, cs: seq<nat>, offset: nat, n: nat)
    requires d.secsize > 0 && d.spc > 0 && Clusters(cs) && Rel(d, offset) < |cs| && offset % d.secsize + n <= d.secsize
    requires var b := FileBlock(d, cs, offset / d.secsize); b in r && |r[b]| == d.secsize
    ensures Reads(d, r, cs, offset, r[FileBlock(d, cs, offset / d.secsize)][offset % d.secsize..offset % d.secsize + n])
  {
    var q, boff := offset / d.secsize, offset % d.secsize;
    var s := r[FileBlock(d, cs, q)][boff..boff + n];
    forall k: nat | k < n ensures ByteIs(d, r, cs, offset + k, s[k]) {
      DivModUnique(offset + k, d.secsize, q, boff + k);
    }
  }

  /** Whole sectors of a run are part of the file. */
  lemma RunReads(d: Dpb, r: Disk, cs: seq<nat>, q: nat, lo: nat, data: seq<Sector>, bytes: seq<byte>)
    requires d.secsize > 0 && d.spc > 0 && Clusters(cs) && Contiguous(d, cs, q, |data|, lo)
    requires Sectored(d.secsize, data, bytes)
    requires forall t: nat :: t < |data| ==> At(d.unit, lo, t) in r && data[t] == r[At(d.unit, lo, t)]
    ensures Reads(d, r, cs, q * d.secsize, bytes)
  {
    forall k: nat | k < |bytes| ensures ByteIs(d, r, cs, q * d.secsize + k, bytes[k]) {
      RunRead(d, r, cs, q, lo, data, bytes, k);
    }
  }

  /** The bytes of a run of sectors, one sector after the other. */
  method Join(s: nat, data: seq<Sector>) returns (bytes: seq<byte>)
    requires forall t :: 0 <= t < |data| ==> |data[t]| == s
    ensures Sectored(s, data, bytes)
  {
    bytes := [];
    var n := 0;
    assert data[..0] == [];
    while n < |data|
      invariant 0 <= n <= |data| && Sectored(s, data[..n], bytes)
    {
      JoinStep(s, data, n, bytes);
      bytes := bytes + data[n];
      n := n + 1;
    }
    assert data[..n] == data;
  }

  lemma JoinStep(s: nat, data: seq<Sector>, n: nat, bytes: seq<byte>)
    requires n < |data| && |data[n]| == s && Sectored(s, data[..n], bytes)
    ensures Sectored(s, data[..n + 1], bytes + data[n])
  {
    MulStep(n, s);
    var longer, more := data[..n + 1], bytes + data[n];
    forall t | 0 <= t < n + 1 ensures SectorIs(s, longer[t], more, t) {
      if t < n {
        assert SectorIs(s, data[..n][t], bytes, t);
      }
    }
  }

  /** The sectors that make up some bytes. */
  method Split(s: nat, bytes: seq<byte>, n: nat) returns (data: seq<Sector>)
    requires |bytes| == n * s
    ensures |data| == n && Sectored(s, data, bytes)
  {
    data := [];
    ghost var done: seq<byte> := [];
    while |data| < n
      invariant |data| <= n && Sectored(s, data, done) && done == bytes[..|data| * s] && |data| * s <= |bytes|
    {
      var k := |data|;
      MulStep(k, s);
      MulMono(k + 1, n, s);
      var sector := bytes[k * s..k * s + s];
      SplitStep(s, data, done, sector);
      assert bytes[..k * s] + sector == bytes[..(k + 1) * s];
      done := done + sector;
      data := data + [sector];
    }
    assert bytes[..n * s] == bytes;
  }

  lemma SplitStep(s: nat, data: seq<Sector>, bytes: seq<byte>, sector: Sector)
    requires Sectored(s, data, bytes) && |sector| == s
    ensures Sectored(s, data + [sector], bytes + sector)
  {
    var more := data + [sector];
    assert more[..|data|] == data && more[..|data| + 1] == more;
    JoinStep(s, more, |data|, bytes);
  }

  /** The volume has the run of sectors. */
  lemma RunOfFile(vol: Volume, start: nat, cs: seq<nat>, q: nat, n: nat, lo: nat)
    requires vol.dpb.spc > 0 && Clusters(cs) && n > 0 && Contiguous(vol.dpb, cs, q, n, lo)
    requires Ready(vol) && Safe(vol.Fat()) && FileChain(vol.Fat(), start, cs) && DataThere(vol.dpb, vol.Rest())
    ensures HasRun(vol, lo, n)
  {
    hide *;
    forall b | InRange(b, vol.dpb.unit, lo, lo + n - 1) ensures HasSector(vol, b) {
      var t := RunSector(vol.dpb, cs, q, n, lo, b);
      FileSector(vol, start, cs, q + t, b);
    }
    RunWhole(vol, lo, n);
  }

  lemma RunSector(d: Dpb, cs: seq<nat>, q: nat, n: nat, lo: nat, b: Block) returns (t: nat)
    requires d.spc > 0 && Clusters(cs) && n > 0 && Contiguous(d, cs, q, n, lo) && InRange(b, d.unit, lo, lo + n - 1)
    ensures t < n && SectorAt(d, cs, q + t, b)
  {
    t := b.num - lo;
    assert SectorAt(d, cs, q + t, At(d.unit, lo, t));
  }

  lemma RunWhole(vol: Volume, lo: nat, n: nat)
    requires Ready(vol) && n > 0 && forall b :: InRange(b, vol.dpb.unit, lo, lo + n - 1) ==> HasSector(vol, b)
    ensures HasRun(vol, lo, n)
  {
  }

  lemma FileParts(fn: FNode, cs: seq<nat>)
    requires FileOk(fn, cs)
    ensures fn.Open(cs) && DataThere(fn.vol.dpb, fn.vol.Rest()) && ClustersFor(fn.vol.dpb, fn.size) <= |cs|
    ensures fn.vol.dpb.Valid() && fn.vol.dpb.secsize > 0 && fn.vol.dpb.spc > 0 && PowerUpTo256(fn.vol.dpb.spc)
    ensures Ready(fn.vol) && Safe(fn.vol.Fat()) && FileChain(fn.vol.Fat(), fn.start, cs) && Clusters(cs)
    ensures fn.offset < fn.size ==> Rel(fn.vol.dpb, fn.offset) < |cs|
    ensures if cs == [] then fn.cluster == FREE && fn.clusterOffset == 0
            else fn.clusterOffset < |cs| && fn.cluster == cs[fn.clusterOffset]
  {
    ChainClusters(fn.vol.Fat(), fn.start, cs);
    if fn.offset < fn.size {
      RelMonotone(fn.vol.dpb, fn.offset, fn.size - 1);
    }
  }

  lemma RelMonotone(d: Dpb, i: nat, j: nat)
    requires d.Valid() && i <= j
    ensures Rel(d, i) <= Rel(d, j)
  {
    RelBounds(d, i);
    RelBounds(d, j);
    if Rel(d, j) + 1 <= Rel(d, i) {
      MulMono(Rel(d, j) + 1, Rel(d, i), ClusterSize(d));
    }
  }

  lemma FileWhole(fn: FNode, cs: seq<nat>)
    requires fn.Open(cs) && DataThere(fn.vol.dpb, fn.vol.Rest()) && ClustersFor(fn.vol.dpb, fn.size) <= |cs|
    ensures FileOk(fn, cs)
  {
  }

  /** `map_cluster` has brought the file to the cluster of its offset. */
  ghost predicate Positioned(fn: FNode, cs: seq<nat>)
    reads fn
  {
    fn.vol.dpb.Valid() && Clusters(cs) && Rel(fn.vol.dpb, fn.offset) < |cs|
    && fn.cluster == cs[Rel(fn.vol.dpb, fn.offset)]
  }

  lemma PositionedParts(fn: FNode, cs: seq<nat>)
    requires Positioned(fn, cs)
    ensures fn.vol.dpb.Valid() && fn.vol.dpb.secsize > 0 && fn.vol.dpb.spc > 0 && PowerUpTo256(fn.vol.dpb.spc)
    ensures Clusters(cs)
    ensures fn.offset / fn.vol.dpb.secsize / fn.vol.dpb.spc < |cs|
    ensures fn.cluster == cs[fn.offset / fn.vol.dpb.secsize / fn.vol.dpb.spc]
    ensures Rel(fn.vol.dpb, fn.offset) == fn.offset / fn.vol.dpb.secsize / fn.vol.dpb.spc
  {
  }

  lemma PositionedWhole(fn: FNode, cs: seq<nat>)
    requires fn.vol.dpb.Valid() && Clusters(cs) && Rel(fn.vol.dpb, fn.offset) < |cs|
    requires fn.cluster == cs[Rel(fn.vol.dpb, fn.offset)]
    ensures Positioned(fn, cs)
  {
  }

  /** The direct path of `rwblock` for a read: as many whole sectors as lie together. */
  method ReadWhole(fn: FNode, wanted: nat, ghost cs: seq<nat>) returns (r: int, bytes: seq<byte>)
    requires Positioned(fn, cs) && wanted > 0 && fn.offset % fn.vol.dpb.secsize == 0
    requires FileOk(fn, cs)
    modifies fn, fn.vol, fn.vol.cache
    ensures FileOk(fn, cs) && fn.size == old(fn.size) && fn.start == old(fn.start)
    ensures fn.vol.Fat() == old(fn.vol.Fat()) && fn.vol.Rest() == old(fn.vol.Rest())
    ensures r == SUCCESS || (r == DE_ACCESS && !fn.vol.cache.reliableReads)
    ensures r != SUCCESS ==> fn.offset == old(fn.offset)
    ensures r == SUCCESS ==>
              0 < |bytes| <= wanted * fn.vol.dpb.secsize && fn.offset == old(fn.offset) + |bytes|
              && Reads(fn.vol.dpb, fn.vol.Rest(), cs, old(fn.offset), bytes)
  {
    hide *;
    Codes();
    FileParts(fn, cs);
    PositionedParts(fn, cs);
    var d, startoffset := fn.vol.dpb, fn.offset;
    OffsetParts(d, startoffset);
    var q := startoffset / d.secsize;
    var lo := FirstBlock(d, fn.cluster, q, cs);
    ghost var before := Shot(fn.vol);
    var n;
    ghost var grown;
    n, grown := GatherRun(fn, false, q, wanted, lo, cs);
    KeptParts(before, Shot(fn.vol), cs, grown);
    fn.OpenParts(cs);
    RunOfFile(fn.vol, fn.start, cs, q, n, lo);
    var ok, data := ReadRun(fn.vol, lo, n);
    bytes := [];
    r := DE_ACCESS;
    if ok {
      bytes := Join(d.secsize, data);
      RunReads(d, fn.vol.Rest(), cs, q, lo, data, bytes);
      r := SUCCESS;
      Distribute(q, n, d.secsize);
      MulMono(n, wanted, d.secsize);
      MulMono(1, n, d.secsize);
    } else {
      fn.offset := startoffset;
    }
    fn.OpenWhole(cs);
    FileWhole(fn, cs);
  }

  /** `currentblock`. */
  method FirstBlock(d: Dpb, cluster: nat, q: nat, ghost cs: seq<nat>) returns (lo: nat)
    requires PowerUpTo256(d.spc) && d.spc > 0 && Clusters(cs) && q / d.spc < |cs| && cluster == cs[q / d.spc]
    ensures lo == FileBlock(d, cs, q).num
  {
    Masked(q, d.spc);
    PhysNat(d, cluster);
    var sector := q % 256 % d.spc;
    lo := Clus2Phys(d, cluster) + sector;
  }

  /** The cached path of `rwblock` for a read: up to the end of one sector. */
  method ReadSome(fn: FNode, todo: nat, ghost cs: seq<nat>) returns (r: int, bytes: seq<byte>)
    requires Positioned(fn, cs) && todo > 0 && fn.offset < fn.size
    requires FileOk(fn, cs)
    modifies fn, fn.vol, fn.vol.cache
    ensures FileOk(fn, cs) && fn.size == old(fn.size) && fn.start == old(fn.start)
    ensures fn.vol.Fat() == old(fn.vol.Fat()) && fn.vol.Rest() == old(fn.vol.Rest())
    ensures r == SUCCESS || (r == DE_SEEK && !fn.vol.cache.reliableReads)
    ensures r != SUCCESS ==> fn.offset == old(fn.offset)
    ensures r == SUCCESS ==>
              0 < |bytes| <= todo && fn.offset == old(fn.offset) + |bytes| <= fn.size
              && Reads(fn.vol.dpb, fn.vol.Rest(), cs, old(fn.offset), bytes)
    ensures r == SUCCESS ==> FrontMarked(fn.vol, |bytes| == 512 || fn.offset == fn.size)
  {
    hide *;
    Codes();
    FileParts(fn, cs);
    PositionedParts(fn, cs);
    var d := fn.vol.dpb;
    OffsetParts(d, fn.offset);
    var q, boff := fn.offset / d.secsize, fn.offset % d.secsize;
    var lo := FirstBlock(d, fn.cluster, q, cs);
    FileBlockUnit(d, cs, q);
    FileSector(fn.vol, fn.start, cs, q, Block(d.unit, lo));
    SectorParts(fn.vol, Block(d.unit, lo));
    var n := if todo < d.secsize - boff then todo else d.secsize - boff;
    n := if n < fn.size - fn.offset then n else fn.size - fn.offset;
    PartReads(d, fn.vol.Rest(), cs, fn.offset, n);
    var ok;
    assert BUFFERSIZE == 512 by { SizeOfBuffer(); }
    ok, bytes := ReadPart(fn.vol, Block(d.unit, lo), boff, n, n == BUFFERSIZE || fn.offset + n == fn.size);
    r := DE_SEEK;
    if ok {
      FrontShown(fn.vol, Block(d.unit, lo), n == BUFFERSIZE || fn.offset + n == fn.size);
      fn.offset := fn.offset + n;
      r := SUCCESS;
    }
    fn.OpenWhole(cs);
    FileWhole(fn, cs);
  }

  const BUFFERSIZE: nat := 512

  lemma SizeOfBuffer()
    ensures BUFFERSIZE == 512
  {
  }

  lemma FileBlockUnit(d: Dpb, cs: seq<nat>, q: nat)
    requires d.spc > 0 && Clusters(cs) && q / d.spc < |cs|
    ensures FileBlock(d, cs, q) == Block(d.unit, FileBlock(d, cs, q).num) && SectorAt(d, cs, q, FileBlock(d, cs, q))
  {
  }

  /** One turn of the loop of `rwblock` for a read before the end of the file. */
  method ReadOnce(fn: FNode, todo: nat, ghost cs: seq<nat>) returns (r: int, bytes: seq<byte>)
    requires fn.vol.dpb.Valid() && Clusters(cs) && todo > 0 && fn.offset < fn.size
    requires FileOk(fn, cs)
    modifies fn, fn.vol, fn.vol.cache
    ensures FileOk(fn, cs) && fn.size == old(fn.size) && fn.start == old(fn.start)
    ensures fn.vol.Fat() == old(fn.vol.Fat()) && fn.vol.Rest() == old(fn.vol.Rest())
    ensures r == SUCCESS || (r in {DE_SEEK, DE_ACCESS} && !fn.vol.cache.reliableReads)
    ensures r != SUCCESS ==> fn.offset == old(fn.offset)
    ensures r == SUCCESS ==>
              0 < |bytes| <= todo && fn.offset == old(fn.offset) + |bytes| <= fn.size
              && Reads(fn.vol.dpb, fn.vol.Rest(), cs, old(fn.offset), bytes)
  {
    hide *;
    Codes();
    FileParts(fn, cs);
    var d := fn.vol.dpb;
    ghost var before := Shot(fn.vol);
    ghost var grown;
    bytes := [];
    r, grown := fn.MapCluster(false, cs);
    KeptParts(before, Shot(fn.vol), cs, grown);
    FileWhole(fn, cs);
    if r != SUCCESS {
      return DE_SEEK, [];
    }
    OffsetParts(d, fn.offset);
    PositionedWhole(fn, cs);
    var wanted := if todo > fn.size - fn.offset then fn.size - fn.offset else todo;
    WholeSectors(wanted, d.secsize);
    if fn.offset % d.secsize == 0 && wanted / d.secsize > 0 {
      r, bytes := ReadWhole(fn, wanted / d.secsize, cs);
    } else {
      r, bytes := ReadSome(fn, todo, cs);
    }
  }

  lemma WholeSectors(n: nat, s: nat)
    requires s > 0
    ensures n / s * s <= n
  {
  }

  lemma NothingRead(d: Dpb, r: Disk, cs: seq<nat>, at: nat)
    requires d.secsize > 0 && d.spc > 0 && Clusters(cs)
    ensures Reads(d, r, cs, at, [])
  {
  }

  /** `fmemcpy` to the caller's memory. */
  method CopyOut(buffer: array<byte>, at: nat, bytes: seq<byte>)
    requires at + |bytes| <= buffer.Length
    modifies buffer
    ensures buffer[..] == old(buffer[..at]) + bytes + old(buffer[at + |bytes|..])
  {
    forall k | 0 <= k < |bytes| {
      buffer[at + k] := bytes[k];
    }
  }

  lemma Copied(old_: seq<byte>, now: seq<byte>, at: nat, bytes: seq<byte>)
    requires at + |bytes| <= |old_| && now == old_[..at] + bytes + old_[at + |bytes|..]
    ensures now[..at + |bytes|] == old_[..at] + bytes && now[at + |bytes|..] == old_[at + |bytes|..]
  {
  }

  /** The end of a read: what is left of the file, or of the request. */
  function Readable(size: nat, offset: nat, count: nat): nat {
    if offset >= size then 0 else if count < size - offset then count else size - offset
  }

  /** `rwblock` for a read, on the fnode of the file. */
  method ReadBlock(fn: FNode, buffer: array<byte>, count: nat, ghost cs: seq<nat>) returns (r: int)
    requires fn.vol.dpb.Valid() && Clusters(cs) && count <= buffer.Length
    requires FileOk(fn, cs)
    modifies fn, fn.vol, fn.vol.cache, buffer
    ensures FileOk(fn, cs) && fn.size == old(fn.size) && fn.start == old(fn.start)
    ensures fn.vol.Fat() == old(fn.vol.Fat()) && fn.vol.Rest() == old(fn.vol.Rest())
    ensures fn.vol.cache.reliableReads ==> r == Readable(fn.size, old(fn.offset), count)
    ensures r == DE_ACCESS || (0 <= r <= count && r <= Readable(fn.size, old(fn.offset), count))
    ensures r >= 0 ==>
              fn.offset == old(fn.offset) + r && Reads(fn.vol.dpb, fn.vol.Rest(), cs, old(fn.offset), buffer[..r])
    ensures r >= 0 ==> buffer[r..] == old(buffer[r..])
    ensures fn.offset == old(fn.offset) || fn.offset <= fn.size
  {
    hide *;
    Codes();
    FileParts(fn, cs);
    var retCnt, toXfer := 0, count;
    ghost var at := fn.offset;
    assert buffer[..0] == [];
    NothingRead(fn.vol.dpb, fn.vol.Rest(), cs, at);
    while retCnt < count
      invariant 0 <= retCnt <= count && toXfer == count - retCnt
      invariant FileOk(fn, cs) && fn.size == old(fn.size) && fn.start == old(fn.start)
      invariant fn.vol.Fat() == old(fn.vol.Fat()) && fn.vol.Rest() == old(fn.vol.Rest())
      invariant fn.offset == at + retCnt && (retCnt == 0 || fn.offset <= fn.size)
      invariant Reads(fn.vol.dpb, fn.vol.Rest(), cs, at, buffer[..retCnt])
      invariant buffer[retCnt..] == old(buffer[retCnt..])
    {
      if fn.offset >= fn.size {
        break;
      }
      var bytes;
      r, bytes := ReadOnce(fn, toXfer, cs);
      if r == DE_ACCESS {
        return;
      }
      if r != SUCCESS {
        break;
      }
      ghost var b0 := buffer[..];
      CopyOut(buffer, retCnt, bytes);
      Copied(b0, buffer[..], retCnt, bytes);
      ReadsJoin(fn.vol.dpb, fn.vol.Rest(), cs, at, b0[..retCnt], bytes);
      retCnt := retCnt + |bytes|;
      toXfer := toXfer - |bytes|;
    }
    ReadableIs(fn.size, at, count);
    r := retCnt;
  }

  lemma ReadableIs(size: nat, offset: nat, count: nat)
    ensures Readable(size, offset, count) == if offset >= size then 0 else if count < size - offset then count
                                             else size - offset
  {
  }
}
