/** The transfers of `rwblock` in kernel/fatfs.c between the data area of a volume and memory:
    parts of a sector through the cache, runs of whole sectors past it. */
module DataBlocks {
  import opened ErrorCodes
  import opened Arith
  import opened LruRing
  import opened BlockIo
  import opened FatTable
  import opened FatFiles
  import opened FileData

  /** A sector of the data area. */
  predicate InData(d: Dpb, b: Block)
    requires d.spc > 0
  {
    b.unit == d.unit && b.num >= d.DataStart() && 2 <= ClusterOf(d, b) <= d.MaxCluster()
  }

  /** The drive has all the sectors of its clusters. */
  ghost predicate DataThere(d: Dpb, r: Disk)
    requires d.spc > 0
  {
    forall b :: InData(d, b) ==> b in r && |r[b]| == d.secsize
  }

  lemma DataOutsideFat(d: Dpb, g: map<int, FatArea>, b: Block)
    requires d.Valid() && InData(d, b) && d.unit in g && g[d.unit] == FatArea(d.FatStart(), d.FatSectors(), d.Copies())
    requires d.Copies() >= 1
    ensures !d.InFat(b) && !InPrimary(g, b) && !IsMirror(g, b)
  {
    MulMono(1, d.Copies(), d.FatSectors());
  }

  lemma ByteKept(d: Dpb, l: Disk, l': Disk, k: nat)
    requires d.secsize > 0 && k < d.FatSectors() * d.secsize
    requires forall b :: d.InFat(b) ==> (b in l <==> b in l') && (b in l ==> l'[b] == l[b])
    ensures d.FatByte(l', k) == d.FatByte(l, k)
  {
    assert k == k / d.secsize * d.secsize + k % d.secsize;
    SectorBound(k / d.secsize, k % d.secsize, d.secsize, d.FatSectors());
    assert d.InFat(Block(d.unit, d.FatStart() + k / d.secsize));
  }

  /** The FAT is a function of its own sectors. */
  lemma FatKept(d: Dpb, l: Disk, l': Disk)
    requires d.Valid()
    requires forall b :: d.InFat(b) ==> (b in l <==> b in l') && (b in l ==> l'[b] == l[b])
    ensures d.Fat(l') == d.Fat(l)
  {
    assert d.secsize > 0;
    assert d.Image(l') == d.Image(l) by {
      hide Dpb.Valid, Dpb.InFat, Dpb.FatByte;
      forall k: nat | k < d.FatSectors() * d.secsize ensures d.Image(l')[k] == d.Image(l)[k] {
        ByteKept(d, l, l', k);
      }
    }
  }

  /** One data sector written. */
  lemma DataStored(d: Dpb, l: Disk, b: Block, s: Sector)
    requires d.Valid() && b in l && !d.InFat(b)
    ensures d.Fat(l[b := s]) == d.Fat(l) && b in d.Rest(l) && d.Rest(l[b := s]) == d.Rest(l)[b := s]
  {
    FatKept(d, l, l[b := s]);
  }

  /** A volume with the data sector `b`. */
  ghost predicate HasSector(vol: Volume, b: Block)
    reads vol, vol.cache
  {
    && Ready(vol) && InData(vol.dpb, b) && b in vol.Rest() && |vol.Rest()[b]| == vol.dpb.secsize
  }

  lemma SectorFacts(vol: Volume, b: Block)
    requires HasSector(vol, b)
    ensures Ready(vol) && b in vol.Rest() && |vol.Rest()[b]| == vol.dpb.secsize
    ensures vol.dpb.Valid() && b in vol.cache.logical && b in vol.cache.disk && vol.cache.logical[b] == vol.Rest()[b]
    ensures vol.cache.secsize == vol.dpb.secsize && vol.cache.Valid() && vol.cache.reliableWrites
    ensures !vol.dpb.InFat(b) && !InPrimary(vol.cache.geometry, b) && !IsMirror(vol.cache.geometry, b)
    ensures MirrorsFollow(vol.cache.geometry, vol.cache.State())
  {
    DataOutsideFat(vol.dpb, vol.cache.geometry, b);
  }

  /** A volume in good order, in the terms of its cache. */
  lemma Mounted(vol: Volume)
    requires Ready(vol)
    ensures vol.dpb.Valid() && vol.dpb.secsize == vol.cache.secsize && |vol.cache.ring| >= 2 && vol.cache.reliableWrites
    ensures vol.dpb.unit in vol.cache.geometry
            && vol.cache.geometry[vol.dpb.unit] == FatArea(vol.dpb.FatStart(), vol.dpb.FatSectors(), vol.dpb.Copies())
    ensures vol.cache.Valid() && MirrorsFollow(vol.cache.geometry, vol.cache.State())
    ensures vol.cache.RingOk() && Coherent(vol.cache.geometry, vol.cache.secsize, vol.cache.State(), {})
    ensures vol.cache.State() == View(vol.cache.disk, vol.cache.bufs, vol.cache.ring, vol.cache.logical)
    ensures vol.hint == UNKNCLUSTER || 2 <= vol.hint <= vol.dpb.MaxCluster()
    ensures vol.nfree == vol.dpb.UnknownFree() || vol.nfree == FreeCount(vol.dpb.Fat(vol.cache.logical))
    ensures vol.Fat() == vol.dpb.Fat(vol.cache.logical) && vol.Rest() == vol.dpb.Rest(vol.cache.logical)
  {
    hide *;
    ReadyIs(vol);
    FatIs(vol);
    vol.MountedParts();
  }

  /** It still is while the FAT is the same. */
  lemma StillReady(vol: Volume)
    requires vol.Valid() && vol.dpb.Valid() && (vol.hint == UNKNCLUSTER || 2 <= vol.hint <= vol.dpb.MaxCluster())
    ensures vol.Fat() == vol.dpb.Fat(vol.cache.logical) && vol.Rest() == vol.dpb.Rest(vol.cache.logical)
    ensures vol.nfree == vol.dpb.UnknownFree() || vol.nfree == FreeCount(vol.dpb.Fat(vol.cache.logical)) ==> Ready(vol)
  {
    hide *;
    FatIs(vol);
    NowReady(vol);
  }

  /** The buffer `bp` of the cache holds the data sector `b`. */
  method Fetch(vol: Volume, b: Block) returns (ok: bool, bp: nat)
    requires HasSector(vol, b)
    modifies vol.cache
    ensures Ready(vol) && vol.cache.logical == old(vol.cache.logical) && vol.Fat() == old(vol.Fat())
    ensures vol.Rest() == old(vol.Rest())
    ensures !ok ==> !vol.cache.reliableReads
    ensures ok ==> bp in vol.cache.ring && bp < |vol.cache.bufs| && Holds(vol.cache.bufs[bp], b) && b in vol.Rest()
                   && vol.cache.bufs[bp].data == vol.Rest()[b]
    ensures ok ==> bp == vol.cache.first && InFront(vol, b, false)
  {
    hide *;
    SectorFacts(vol, b);
    Mounted(vol);
    ghost var order, k := vol.cache.ring, 0;
    vol.cache.Members();
    ok, bp, k := vol.cache.GetBlk(b, false);
    FrontedElements(order, k);
    vol.cache.ValidIs();
    vol.Remounted();
    StillReady(vol);
    if ok {
      HoldsParts(vol.cache.bufs[bp], b);
      CoherentBounds(vol.cache.geometry, vol.cache.secsize, vol.cache.State(), {}, bp);
      TaggedData(vol.cache.geometry, vol.cache.secsize, vol.cache.State(), vol.cache.bufs[bp], b);
      InFrontIs(vol, b, false);
    }
  }

  /** Sector `b` is in the first buffer, which is marked to be the next one reused, or not. */
  ghost predicate InFront(vol: Volume, b: Block, marked: bool)
    reads vol, vol.cache
  {
    var x := vol.cache.first;
    x < |vol.cache.bufs| && Holds(vol.cache.bufs[x], b) && vol.cache.bufs[x].uncache == marked
  }

  ghost predicate FrontMarked(vol: Volume, marked: bool)
    reads vol, vol.cache
  {
    vol.cache.first < |vol.cache.bufs| && vol.cache.bufs[vol.cache.first].uncache == marked
  }

  lemma FrontShown(vol: Volume, b: Block, marked: bool)
    requires InFront(vol, b, marked)
    ensures FrontMarked(vol, marked)
  {
  }

  lemma InFrontIs(vol: Volume, b: Block, marked: bool)
    ensures InFront(vol, b, marked) <==>
              var x := vol.cache.first;
              x < |vol.cache.bufs| && Holds(vol.cache.bufs[x], b) && vol.cache.bufs[x].uncache == marked
  {
  }

  /** The cached path of a read: `n` bytes of a sector. */
  method ReadPart(vol: Volume, b: Block, boff: nat, n: nat, uncache: bool) returns (ok: bool, bytes: seq<byte>)
    requires HasSector(vol, b) && boff + n <= vol.dpb.secsize
    modifies vol.cache
    ensures Ready(vol) && vol.Fat() == old(vol.Fat()) && vol.Rest() == old(vol.Rest())
    ensures !ok ==> !vol.cache.reliableReads
    ensures ok ==> |bytes| == n && bytes == old(vol.Rest())[b][boff..boff + n] && InFront(vol, b, uncache)
  {
    hide *;
    SectorParts(vol, b);
    var bp;
    ok, bp := Fetch(vol, b);
    bytes := [];
    if ok {
      bytes := vol.cache.bufs[bp].data[boff..boff + n];
      if uncache {
        Release(vol, bp, b);
      }
    }
  }

  lemma SectorParts(vol: Volume, b: Block)
    requires HasSector(vol, b)
    ensures Ready(vol) && vol.dpb.Valid() && b in vol.Rest() && |vol.Rest()[b]| == vol.dpb.secsize
  {
  }

  /** A buffer that is not expected to be used again. */
  method Release(vol: Volume, bp: nat, ghost b: Block)
    requires Ready(vol) && bp in vol.cache.ring && bp < |vol.cache.bufs|
    requires bp == vol.cache.first && InFront(vol, b, false)
    modifies vol.cache
    ensures Ready(vol) && vol.Fat() == old(vol.Fat()) && vol.Rest() == old(vol.Rest())
    ensures InFront(vol, b, true)
  {
    hide Coherent, MirrorsFollow, Linked, IsMirror, InPrimary, Dpb.Fat, Dpb.Valid;
    vol.cache.MarkUncache(bp);
  }

  /** Stores bytes in the buffer of a data sector. */
  method StoreData(vol: Volume, b: Block, bp: nat, s: Sector)
    requires HasSector(vol, b) && bp in vol.cache.ring && bp < |vol.cache.bufs| && Holds(vol.cache.bufs[bp], b)
    requires |s| == vol.dpb.secsize
    modifies vol.cache
    ensures Ready(vol) && b in old(vol.Rest()) && vol.Fat() == old(vol.Fat()) && vol.Rest() == old(vol.Rest())[b := s]
    ensures bp in vol.cache.ring && bp < |vol.cache.bufs| && vol.cache.first == old(vol.cache.first)
    ensures old(bp == vol.cache.first && InFront(vol, b, false)) ==> InFront(vol, b, false)
  {
    hide *;
    SectorFacts(vol, b);
    Mounted(vol);
    InFrontIs(vol, b, false);
    HoldsParts(vol.cache.bufs[bp], b);
    DataStored(vol.dpb, vol.cache.logical, b, s);
    PendingCoherent(vol.cache.geometry, vol.cache.secsize, vol.cache.State(), b);
    vol.cache.PendingValid(b);
    vol.cache.Store(bp, s);
    HoldsParts(vol.cache.bufs[bp], b);
    InFrontIs(vol, b, false);
    vol.Remounted();
    StillReady(vol);
  }

  /** The cached path of a write: bytes into a sector. */
  method WritePart(vol: Volume, b: Block, boff: nat, bytes: seq<byte>, uncache: bool) returns (ok: bool)
    requires HasSector(vol, b) && boff + |bytes| <= vol.dpb.secsize
    modifies vol.cache
    ensures Ready(vol) && vol.Fat() == old(vol.Fat())
    ensures !ok ==> !vol.cache.reliableReads && vol.Rest() == old(vol.Rest())
    ensures ok ==> b in old(vol.Rest()) && boff + |bytes| <= |old(vol.Rest())[b]|
                   && vol.Rest() == old(vol.Rest())[b := Overlay(old(vol.Rest())[b], boff, bytes)]
                   && InFront(vol, b, uncache)
  {
    hide *;
    SectorParts(vol, b);
    var bp;
    SectorKeep(vol, b);
    ok, bp := Fetch(vol, b);
    if ok {
      SectorAgain(vol, b);
      StoreData(vol, b, bp, Overlay(vol.cache.bufs[bp].data, boff, bytes));
      if uncache {
        Release(vol, bp, b);
      }
    }
  }

  lemma SectorKeep(vol: Volume, b: Block)
    requires HasSector(vol, b)
    ensures vol.dpb.spc > 0 && InData(vol.dpb, b)
  {
  }

  lemma SectorAgain(vol: Volume, b: Block)
    requires Ready(vol) && vol.dpb.spc > 0 && InData(vol.dpb, b) && b in vol.Rest()
    requires |vol.Rest()[b]| == vol.dpb.secsize
    ensures HasSector(vol, b)
  {
  }

  /** A volume with the run of data sectors from `lo` on. */
  ghost predicate HasRun(vol: Volume, lo: nat, n: nat)
    reads vol, vol.cache
  {
    Ready(vol) && n > 0 && forall b :: InRange(b, vol.dpb.unit, lo, lo + n - 1) ==> HasSector(vol, b)
  }

  lemma RunFacts(vol: Volume, lo: nat, n: nat)
    requires HasRun(vol, lo, n)
    ensures Ready(vol) && n > 0 && vol.dpb.Valid() && vol.cache.secsize == vol.dpb.secsize && vol.cache.Valid()
    ensures vol.cache.reliableWrites
    ensures MirrorsFollow(vol.cache.geometry, vol.cache.State())
    ensures OutsideFat(vol.cache.geometry, vol.dpb.unit, lo, lo + n - 1)
    ensures forall b :: InRange(b, vol.dpb.unit, lo, lo + n - 1) ==>
              && b in vol.cache.logical && b in vol.cache.disk && !vol.dpb.InFat(b)
              && b in vol.Rest() && |vol.Rest()[b]| == vol.dpb.secsize && vol.cache.logical[b] == vol.Rest()[b]
  {
    assert HasSector(vol, At(vol.dpb.unit, lo, 0));
    SectorFacts(vol, At(vol.dpb.unit, lo, 0));
    forall b | InRange(b, vol.dpb.unit, lo, lo + n - 1)
      ensures b in vol.cache.logical && b in vol.cache.disk && !vol.dpb.InFat(b)
      ensures b in vol.Rest() && |vol.Rest()[b]| == vol.dpb.secsize && vol.cache.logical[b] == vol.Rest()[b]
      ensures !InPrimary(vol.cache.geometry, b) && !IsMirror(vol.cache.geometry, b)
    {
      SectorFacts(vol, b);
    }
  }

  /** The direct path of a read: dirty buffers of the run are written, then the disk is read. */
  method ReadRun(vol: Volume, lo: nat, n: nat) returns (ok: bool, data: seq<Sector>)
    requires HasRun(vol, lo, n)
    modifies vol.cache
    ensures Ready(vol) && vol.Fat() == old(vol.Fat()) && vol.Rest() == old(vol.Rest())
    ensures !ok ==> !vol.cache.reliableReads
    ensures ok ==>
              && |data| == n
              && forall t: nat :: t < n ==>
                   At(vol.dpb.unit, lo, t) in vol.Rest() && data[t] == vol.Rest()[At(vol.dpb.unit, lo, t)]
    ensures ok ==> forall t :: 0 <= t < |data| ==> |data[t]| == vol.dpb.secsize
  {
    hide *;
    RunFacts(vol, lo, n);
    Mounted(vol);
    vol.cache.DeleteBlocks(lo, lo + n - 1, vol.dpb.unit, false);
    ok, data := vol.cache.ReadSectors(vol.dpb.unit, lo, n);
    vol.Remounted();
    StillReady(vol);
    if ok {
      forall t: nat | t < n
        ensures At(vol.dpb.unit, lo, t) in vol.Rest() && data[t] == vol.Rest()[At(vol.dpb.unit, lo, t)]
        ensures |data[t]| == vol.dpb.secsize
      {
        InRun(vol.dpb.unit, lo, n, t);
      }
    }
  }

  lemma InRun(unit: int, lo: nat, n: nat, t: nat)
    requires t < n
    ensures InRange(At(unit, lo, t), unit, lo, lo + n - 1)
  {
  }

  /** A run of data sectors written: nothing else of the logical disk changes. */
  lemma RunStored(d: Dpb, l0: Disk, l1: Disk, lo: nat, data: seq<Sector>)
    requires d.Valid() && data != [] && l1.Keys == l0.Keys
    requires forall b :: InRange(b, d.unit, lo, lo + |data| - 1) ==> b in l0 && !d.InFat(b)
    requires forall b :: b in l1 && !InRange(b, d.unit, lo, lo + |data| - 1) ==> l1[b] == l0[b]
    ensures var l2 := Spliced(l1, d.unit, lo, data);
            d.Fat(l2) == d.Fat(l0) && d.Rest(l2) == Spliced(d.Rest(l0), d.unit, lo, data)
  {
    FatKept(d, l0, Spliced(l1, d.unit, lo, data));
  }

  /** The direct path of a write: buffers of the run are thrown away, then the disk is written. */
  method WriteRun(vol: Volume, lo: nat, data: seq<Sector>) returns (r: int)
    requires HasRun(vol, lo, |data|) && forall t :: 0 <= t < |data| ==> |data[t]| == vol.dpb.secsize
    modifies vol.cache
    ensures Ready(vol) && r == SUCCESS && vol.Fat() == old(vol.Fat())
    ensures vol.Rest() == Spliced(old(vol.Rest()), vol.dpb.unit, lo, data)
  {
    hide *;
    Codes();
    RunFacts(vol, lo, |data|);
    Mounted(vol);
    ghost var l0 := vol.cache.logical;
    vol.cache.DeleteBlocks(lo, lo + |data| - 1, vol.dpb.unit, true);
    ghost var l1 := vol.cache.logical;
    var ok := vol.cache.WriteSectors(vol.dpb.unit, lo, data);
    RunStored(vol.dpb, l0, l1, lo, data);
    vol.Remounted();
    StillReady(vol);
    r := if ok then SUCCESS else DE_ACCESS;
  }
}
