/** `rwblock` of kernel/fatfs.c for writes: bytes spliced into a file, its chain grown as
    needed, and truncation by a write of no bytes. */
module FileWrite {
  import opened ErrorCodes
  import opened Arith
  import opened FatPacking
  import opened BlockIo
  import opened FatTable
  import opened FatChains
  import opened FatFiles
  import opened FileSize
  import opened FileData
  import opened DataBlocks
  import opened FileIo

  /** What a write does to the volume: the chain `cs` has grown to `grown` by safe FAT writes, `bytes` are at
      offset `at` of the file, and no other sector changed. */
  ghost predicate Wrote(d: Dpb, a: Snapshot, b: Snapshot, cs: seq<nat>, grown: seq<nat>, at: nat, bytes: seq<byte>)
    requires d.secsize > 0 && d.spc > 0
  {
    && Grown(a.fat, b.fat, cs, grown) && LoggedSafely(a.log, b.log) && Counted(a, b, cs, grown) && Clusters(grown)
    && ByteSpliced(d, a.rest, b.rest, grown, at, bytes) && RestKept(d, a.rest, b.rest, grown)
    && (bytes != [] ==> Rel(d, at + |bytes| - 1) < |grown|)
  }

  lemma WroteNothing(d: Dpb, a: Snapshot, b: Snapshot, cs: seq<nat>, grown: seq<nat>, at: nat)
    requires d.Valid() && Kept(a, b, cs, grown) && Clusters(grown)
    ensures Wrote(d, a, b, cs, grown, at, [])
  {
    NothingSpliced(d, a.rest, grown, at);
  }

  lemma InChain(d: Dpb, at: nat, n: nat, k: nat)
    requires d.Valid() && (n > 0 ==> Rel(d, at + n - 1) < k)
    ensures forall i: nat :: at <= i < at + n ==> Rel(d, i) < k
  {
    forall i: nat | at <= i < at + n ensures Rel(d, i) < k {
      RelMonotone(d, i, at + n - 1);
    }
  }

  /** Two writes one after the other are one write of both. */
  lemma WroteTransitive(d: Dpb, a: Snapshot, b: Snapshot, c: Snapshot, c0: seq<nat>, c1: seq<nat>, c2: seq<nat>,
                        start: nat, at: nat, b1: seq<byte>, next: nat, b2: seq<byte>)
    requires d.Valid() && next == at + |b1| && FileChain(b.fat, start, c1)
    requires Wrote(d, a, b, c0, c1, at, b1) && Wrote(d, b, c, c1, c2, next, b2)
    ensures Wrote(d, a, c, c0, c2, at, b1 + b2)
  {
    hide *;
    SpcPositive(d);
    WroteParts(d, a, b, c0, c1, at, b1);
    WroteParts(d, b, c, c1, c2, next, b2);
    GrownTransitive(a.fat, b.fat, c.fat, c0, c1, c2, start);
    LoggedTransitive(a.log, b.log, c.log);
    InChain(d, at, |b1|, |c1|);
    SplicedGrown(d, a.rest, b.rest, c1, c2, at, b1);
    SplicedTransitive(d, a.rest, b.rest, c.rest, c2, at, b1, next, b2);
    RestTransitive(d, a.rest, b.rest, c.rest, c2);
    GrownLonger(c1, c1, c2);
    assert b2 == [] ==> b1 + b2 == b1;
    WroteWhole(d, a, c, c0, c2, at, b1 + b2);
  }

  /** What `Wrote` says. */
  lemma WroteParts(d: Dpb, a: Snapshot, b: Snapshot, cs: seq<nat>, grown: seq<nat>, at: nat, bytes: seq<byte>)
    requires d.secsize > 0 && d.spc > 0 && Wrote(d, a, b, cs, grown, at, bytes)
    ensures Grown(a.fat, b.fat, cs, grown) && cs <= grown && |b.fat| == |a.fat| && Clusters(grown)
    ensures LoggedSafely(a.log, b.log) && RestKept(d, a.rest, b.rest, grown)
    ensures ByteSpliced(d, a.rest, b.rest, grown, at, bytes)
    ensures bytes != [] ==> Rel(d, at + |bytes| - 1) < |grown|
    ensures b.exact == a.exact && (a.exact ==> FreeCount(b.fat) + |grown| == FreeCount(a.fat) + |cs|)
  {
  }

  lemma WroteWhole(d: Dpb, a: Snapshot, b: Snapshot, cs: seq<nat>, grown: seq<nat>, at: nat, bytes: seq<byte>)
    requires d.secsize > 0 && d.spc > 0 && Clusters(grown)
    requires Grown(a.fat, b.fat, cs, grown) && LoggedSafely(a.log, b.log) && RestKept(d, a.rest, b.rest, grown)
    requires ByteSpliced(d, a.rest, b.rest, grown, at, bytes)
    requires bytes != [] ==> Rel(d, at + |bytes| - 1) < |grown|
    requires b.exact == a.exact && (a.exact ==> FreeCount(b.fat) + |grown| == FreeCount(a.fat) + |cs|)
    ensures Wrote(d, a, b, cs, grown, at, bytes)
  {
  }

  /** Sizes and places of the data sectors survive. */
  lemma ThereAfterSector(d: Dpb, r: Disk, b: Block, s: Sector)
    requires d.spc > 0 && DataThere(d, r) && b in r && |s| == d.secsize
    ensures DataThere(d, r[b := s])
  {
  }

  lemma ThereAfterRun(d: Dpb, r: Disk, lo: nat, data: seq<Sector>)
    requires d.spc > 0 && DataThere(d, r) && forall t :: 0 <= t < |data| ==> |data[t]| == d.secsize
    ensures DataThere(d, Spliced(r, d.unit, lo, data))
  {
  }

  /** After `n` sectors were written from sector `q` on. */
  lemma WroteRun(d: Dpb, a: Snapshot, b: Snapshot, c: Snapshot, cs: seq<nat>, grown: seq<nat>, q: nat, lo: nat,
                 data: seq<Sector>, bytes: seq<byte>)
    requires d.Valid() && Kept(a, b, cs, grown) && Clusters(grown) && data != [] && Sectored(d.secsize, data, bytes)
    requires Contiguous(d, grown, q, |data|, lo) && DataThere(d, b.rest)
    requires forall t: nat :: t < |data| ==> InData(d, At(d.unit, lo, t))
    requires c == b.(rest := Spliced(b.rest, d.unit, lo, data))
    ensures Wrote(d, a, c, cs, grown, q * d.secsize, bytes) && DataThere(d, c.rest) && bytes != []
    ensures |bytes| == |data| * d.secsize && Rel(d, q * d.secsize + |bytes| - 1) < |grown|
  {
    RunWritten(d, b.rest, grown, q, lo, data, bytes);
    ThereAfterRun(d, b.rest, lo, data) by {
      forall t | 0 <= t < |data| ensures |data[t]| == d.secsize {
        assert SectorIs(d.secsize, data[t], bytes, t);
      }
    }
    LastOfRun(d, grown, q, |data|, lo);
  }

  lemma LastOfRun(d: Dpb, cs: seq<nat>, q: nat, n: nat, lo: nat)
    requires d.Valid() && Clusters(cs) && n > 0 && Contiguous(d, cs, q, n, lo)
    ensures n * d.secsize > 0 && Rel(d, q * d.secsize + n * d.secsize - 1) < |cs|
  {
    MulMono(1, n, d.secsize);
    Distribute(q, n, d.secsize);
    MulStep(q + n - 1, d.secsize);
    ByteInSector(d.secsize, q + n - 1, d.secsize - 1);
    var t: nat := n - 1;
    assert SectorAt(d, cs, q + t, At(d.unit, lo, t));
  }

  lemma RunIsData(vol: Volume, lo: nat, n: nat)
    requires HasRun(vol, lo, n)
    ensures vol.dpb.spc > 0 && forall t: nat :: t < n ==> InData(vol.dpb, At(vol.dpb.unit, lo, t))
  {
    hide HasSector, InData, Ready;
    SectorKeep(vol, At(vol.dpb.unit, lo, 0));
    forall t: nat | t < n ensures InData(vol.dpb, At(vol.dpb.unit, lo, t)) {
      assert InRange(At(vol.dpb.unit, lo, t), vol.dpb.unit, lo, lo + n - 1);
      SectorKeep(vol, At(vol.dpb.unit, lo, t));
    }
  }

  lemma SectoredSizes(s: nat, data: seq<Sector>, bytes: seq<byte>)
    requires Sectored(s, data, bytes)
    ensures |bytes| == |data| * s && forall t :: 0 <= t < |data| ==> |data[t]| == s
  {
    forall t | 0 <= t < |data| ensures |data[t]| == s {
      assert SectorIs(s, data[t], bytes, t);
    }
  }

  /** The direct path of `rwblock` for a write. */
  method WriteWhole(fn: FNode, todo: seq<byte>, ghost cs: seq<nat>) returns (r: int, n: nat, ghost grown: seq<nat>)
    requires Positioned(fn, cs) && fn.offset % fn.vol.dpb.secsize == 0 && |todo| >= fn.vol.dpb.secsize
    requires FileOk(fn, cs)
    modifies fn, fn.vol, fn.vol.cache
    ensures fn.Open(grown) && DataThere(fn.vol.dpb, fn.vol.Rest()) && fn.size == old(fn.size) && r == SUCCESS
    ensures 0 < n <= |todo| && fn.offset == old(fn.offset) + n
    ensures Wrote(fn.vol.dpb, old(Shot(fn.vol)), Shot(fn.vol), cs, grown, old(fn.offset), todo[..n])
  {
    hide *;
    Codes();
    FileParts(fn, cs);
    PositionedParts(fn, cs);
    var d, startoffset := fn.vol.dpb, fn.offset;
    OffsetParts(d, startoffset);
    WholeSectors(|todo|, d.secsize);
    AtLeastOne(|todo|, d.secsize);
    var q, wanted := startoffset / d.secsize, |todo| / d.secsize;
    var lo := FirstBlock(d, fn.cluster, q, cs);
    ghost var a := Shot(fn.vol);
    var sectors;
    sectors, grown := GatherRun(fn, true, q, wanted, lo, cs);
    ghost var b := Shot(fn.vol);
    KeptParts(a, b, cs, grown);
    fn.OpenParts(grown);
    RunOfFile(fn.vol, fn.start, grown, q, sectors, lo);
    RunIsData(fn.vol, lo, sectors);
    MulMono(sectors, wanted, d.secsize);
    n := sectors * d.secsize;
    var data := Split(d.secsize, todo[..n], sectors);
    SectoredSizes(d.secsize, data, todo[..n]);
    // The drive is trusted for writes, so the offset never has to be restored.
    r := WriteRun(fn.vol, lo, data);
    WroteRun(d, a, b, Shot(fn.vol), cs, grown, q, lo, data, todo[..n]);
    Distribute(q, sectors, d.secsize);
    fn.OpenWhole(grown);
  }

  lemma AtLeastOne(n: nat, s: nat)
    requires 0 < s <= n
    ensures n / s > 0
  {
  }

  /** After bytes were written into one sector. */
  lemma WroteSome(d: Dpb, a: Snapshot, b: Snapshot, cs: seq<nat>, q: nat, boff: nat, bytes: seq<byte>)
    requires d.secsize > 0 && d.spc > 0 && Clusters(cs) && boff + |bytes| <= d.secsize && bytes != []
    requires q / d.spc < |cs| && DataThere(d, a.rest)
    requires var k := FileBlock(d, cs, q);
             InData(d, k) && k in a.rest && |a.rest[k]| == d.secsize
             && b == a.(rest := a.rest[k := Overlay(a.rest[k], boff, bytes)])
    ensures var offset := q * d.secsize + boff;
            Wrote(d, a, b, cs, cs, offset, bytes) && DataThere(d, b.rest) && Rel(d, offset + |bytes| - 1) < |cs|
  {
    hide *;
    var offset := q * d.secsize + boff;
    ClusterNumber(cs, q / d.spc);
    var k := FileBlock(d, cs, q);
    SectorWritten(d, a.rest, cs, q, boff, bytes);
    ThereAfterSector(d, a.rest, k, Overlay(a.rest[k], boff, bytes));
    GrownSame(a.fat, cs);
    LoggedTransitive(a.log, [], []);
    SameRel(d, q, boff, |bytes|);
    WroteWhole(d, a, b, cs, cs, offset, bytes);
  }

  lemma ClusterNumber(cs: seq<nat>, k: nat)
    requires Clusters(cs) && k < |cs|
    ensures cs[k] >= 2
  {
  }

  lemma SameRel(d: Dpb, q: nat, boff: nat, n: nat)
    requires d.secsize > 0 && d.spc > 0 && n > 0 && boff + n <= d.secsize
    ensures Rel(d, q * d.secsize + boff) == q / d.spc && Rel(d, q * d.secsize + boff + n - 1) == q / d.spc
  {
    DivModUnique(q * d.secsize + boff, d.secsize, q, boff);
    DivModUnique(q * d.secsize + boff + n - 1, d.secsize, q, boff + n - 1);
  }

  /** The cached path of `rwblock` for a write: up to the end of one sector. */
  method WriteSome(fn: FNode, todo: seq<byte>, ghost cs: seq<nat>) returns (r: int, n: nat)
    requires Positioned(fn, cs) && todo != []
    requires FileOk(fn, cs)
    modifies fn, fn.vol, fn.vol.cache
    ensures fn.Open(cs) && DataThere(fn.vol.dpb, fn.vol.Rest()) && fn.size == old(fn.size)
    ensures r == SUCCESS || (r == DE_SEEK && !fn.vol.cache.reliableReads)
    ensures n <= |todo| && fn.offset == old(fn.offset) + n && (n > 0 <==> r == SUCCESS)
    ensures Wrote(fn.vol.dpb, old(Shot(fn.vol)), Shot(fn.vol), cs, cs, old(fn.offset), todo[..n])
    ensures r == SUCCESS ==> FrontMarked(fn.vol, n == 512)
  {
    hide *;
    Codes();
    SizeOfBuffer();
    FileParts(fn, cs);
    PositionedParts(fn, cs);
    var d := fn.vol.dpb;
    OffsetParts(d, fn.offset);
    var q, boff := fn.offset / d.secsize, fn.offset % d.secsize;
    var lo := FirstBlock(d, fn.cluster, q, cs);
    FileBlockUnit(d, cs, q);
    FileSector(fn.vol, fn.start, cs, q, Block(d.unit, lo));
    SectorParts(fn.vol, Block(d.unit, lo));
    SectorKeep(fn.vol, Block(d.unit, lo));
    n := if |todo| < d.secsize - boff then |todo| else d.secsize - boff;
    ghost var a := Shot(fn.vol);
    KeptSame(a, cs);
    WroteNothing(d, a, a, cs, cs, fn.offset);
    var ok := WritePart(fn.vol, Block(d.unit, lo), boff, todo[..n], n == BUFFERSIZE);
    r := DE_SEEK;
    if ok {
      WroteSome(d, a, Shot(fn.vol), cs, q, boff, todo[..n]);
      FrontShown(fn.vol, Block(d.unit, lo), n == BUFFERSIZE);
      fn.offset := fn.offset + n;
      r := SUCCESS;
    } else {
      n := 0;
    }
    assert ok || todo[..n] == [];
    fn.OpenWhole(cs);
  }

  lemma GrownLonger(cs: seq<nat>, mid: seq<nat>, grown: seq<nat>)
    ensures cs <= mid <= grown ==> |cs| <= |mid| <= |grown|
  {
  }

  lemma SizeFits(d: Dpb, n: nat, k: nat)
    requires d.Valid() && (n > 0 ==> Rel(d, n - 1) < k)
    ensures ClustersFor(d, n) <= k
  {
  }

  /** The transfer of one turn, whole sectors past the cache or part of one through it. */
  method WriteHere(fn: FNode, todo: seq<byte>, ghost cs: seq<nat>) returns (r: int, n: nat, ghost grown: seq<nat>)
    requires Positioned(fn, cs) && todo != []
    requires FileOk(fn, cs)
    modifies fn, fn.vol, fn.vol.cache
    ensures fn.Open(grown) && DataThere(fn.vol.dpb, fn.vol.Rest()) && fn.size == old(fn.size) && cs <= grown
    ensures r == SUCCESS || (r == DE_SEEK && !fn.vol.cache.reliableReads)
    ensures n <= |todo| && fn.offset == old(fn.offset) + n && (n > 0 <==> r == SUCCESS)
    ensures Wrote(fn.vol.dpb, old(Shot(fn.vol)), Shot(fn.vol), cs, grown, old(fn.offset), todo[..n])
    ensures n > 0 ==> Rel(fn.vol.dpb, fn.offset - 1) < |grown|
  {
    hide *;
    Codes();
    FileParts(fn, cs);
    OffsetParts(fn.vol.dpb, fn.offset);
    ghost var a, at := Shot(fn.vol), fn.offset;
    grown := cs;
    if fn.offset % fn.vol.dpb.secsize == 0 && |todo| >= fn.vol.dpb.secsize {
      r, n, grown := WriteWhole(fn, todo, cs);
    } else {
      r, n := WriteSome(fn, todo, cs);
    }
    WroteParts(fn.vol.dpb, a, Shot(fn.vol), cs, grown, at, todo[..n]);
  }

  /** One turn of the loop of `rwblock` for a write; `n` is 0 when the file could not be grown or a sector not read. */
  method WriteOnce(fn: FNode, todo: seq<byte>, ghost cs: seq<nat>) returns (n: nat, ghost grown: seq<nat>)
    requires fn.vol.dpb.Valid() && Clusters(cs) && todo != []
    requires FileOk(fn, cs)
    modifies fn, fn.vol, fn.vol.cache
    ensures FileOk(fn, grown)
    ensures n <= |todo| && fn.offset == old(fn.offset) + n
    ensures fn.size == if n > 0 && fn.offset > old(fn.size) then fn.offset else old(fn.size)
    ensures Wrote(fn.vol.dpb, old(Shot(fn.vol)), Shot(fn.vol), cs, grown, old(fn.offset), todo[..n])
    ensures n == 0 && fn.vol.cache.reliableReads ==>
              FreeCount(fn.vol.Fat()) == 0 && |grown| <= Rel(fn.vol.dpb, fn.offset)
  {
    hide *;
    FileParts(fn, cs);
    var d := fn.vol.dpb;
    ghost var a, at := Shot(fn.vol), fn.offset;
    var r;
    r, grown := fn.MapCluster(true, cs);
    ghost var b, mid := Shot(fn.vol), grown;
    KeptParts(a, b, cs, mid);
    fn.OpenParts(mid);
    ChainClusters(fn.vol.Fat(), fn.start, mid);
    GrownPrefix(a, b, cs, mid);
    FileWhole(fn, mid);
    WroteNothing(d, a, b, cs, mid, at);
    assert todo[..0] == [];
    if r != SUCCESS {
      return 0, mid;
    }
    PositionedWhole(fn, mid);
    ghost var st := fn.start;
    r, n, grown := WriteHere(fn, todo, mid);
    WroteTransitive(d, a, b, Shot(fn.vol), cs, mid, grown, st, at, [], at, todo[..n]);
    assert [] + todo[..n] == todo[..n];
    fn.OpenParts(grown);
    GrownLonger(cs, mid, grown);
    if n > 0 && fn.offset > fn.size {
      fn.size := fn.offset;
      SizeFits(d, fn.size, |grown|);
    }
    fn.OpenWhole(grown);
    FileWhole(fn, grown);
  }

  lemma BytesFit(d: Dpb, k: nat)
    requires d.Valid()
    ensures ClustersFor(d, Bytes(d, k)) <= k
  {
    ClustersForCeil(d, Bytes(d, k), k);
  }

  lemma WantedFits(d: Dpb, offset: nat, emptywrite: bool, k: nat)
    requires d.Valid() && k >= Wanted(d, offset, emptywrite)
    ensures ClustersFor(d, offset) <= k
  {
    if offset > 0 {
      RelMonotone(d, offset - 1, offset);
    }
  }

  /** `dos_extend` before a write: what is left to say of the file. */
  method ExtendFile(fn: FNode, emptywrite: bool, ghost cs: seq<nat>) returns (r: int, ghost grown: seq<nat>)
    requires fn.vol.dpb.Valid() && Clusters(cs)
    requires FileOk(fn, cs)
    modifies fn, fn.vol, fn.vol.cache
    ensures FileOk(fn, grown) && Clusters(grown) && cs <= grown && fn.offset == old(fn.offset)
    ensures Kept(old(Shot(fn.vol)), Shot(fn.vol), cs, grown)
    ensures (r == SUCCESS || r == DE_HNDLDSKFULL) && (fn.size <= old(fn.size) || fn.size <= fn.offset)
    ensures r == SUCCESS ==> fn.size == if old(fn.size) < fn.offset then fn.offset else old(fn.size)
    ensures r != SUCCESS ==> fn.size == if grown == [] then old(fn.size) else Bytes(fn.vol.dpb, fn.clusterOffset + 1)
    ensures r != SUCCESS && fn.vol.cache.reliableReads ==>
              FreeCount(fn.vol.Fat()) == 0 && |grown| < Wanted(fn.vol.dpb, fn.offset, emptywrite)
              && (grown != [] ==> fn.clusterOffset == |grown| - 1)
    ensures r == SUCCESS && old(fn.offset > fn.size) ==>
              |grown| == if Wanted(fn.vol.dpb, fn.offset, emptywrite) <= |cs| then |cs|
                         else Wanted(fn.vol.dpb, fn.offset, emptywrite)
    ensures old(fn.offset <= fn.size) ==> r == SUCCESS && grown == cs
  {
    hide *;
    Codes();
    FileParts(fn, cs);
    ghost var a := Shot(fn.vol);
    r, grown := DosExtend(fn, emptywrite, cs);
    fn.OpenParts(grown);
    ChainClusters(fn.vol.Fat(), fn.start, grown);
    KeptParts(a, Shot(fn.vol), cs, grown);
    GrownPrefix(a, Shot(fn.vol), cs, grown);
    GrownLonger(cs, cs, grown);
    if r != SUCCESS {
      BytesFit(fn.vol.dpb, fn.clusterOffset + 1);
    } else if old(fn.offset > fn.size) {
      WantedFits(fn.vol.dpb, fn.offset, emptywrite, |grown|);
    }
    FileWhole(fn, grown);
  }

  lemma SliceOfSlice(s: seq<byte>, i: nat, j: nat, n: nat)
    requires i <= j <= |s| && n <= j - i
    ensures s[i..j][..n] == s[i..i + n] && s[..i] + s[i..i + n] == s[..i + n]
  {
  }

  /** What a write of `count` bytes answers on a drive that reads reliably, when the chain and the free clusters
      have room for `capacity` bytes: how many bytes are written, or an error when they would pass 4 GB. */
  function WriteAnswer(size: nat, offset: nat, count: nat, capacity: nat): int {
    if offset + count >= 0x1_0000_0000 && (offset <= size || offset < capacity) then DE_HNDLDSKFULL
    else Readable(capacity, offset, count)
  }

  /** The size of the file after it: a refused write may leave it as long as all clusters allow. */
  function SizeAfter(size: nat, offset: nat, r: nat, capacity: nat): nat {
    if r > 0 then (if size < offset + r then offset + r else size)
    else if offset <= size || capacity == 0 then size
    else capacity
  }

  /** The size is the larger of the old one and the end of what was written if and only if the chain and the free
      clusters reach up to the offset. */
  lemma SizeRight(size: nat, offset: nat, count: nat, capacity: nat)
    requires size <= capacity && count > 0 && WriteAnswer(size, offset, count, capacity) >= 0
    ensures var r := WriteAnswer(size, offset, count, capacity);
            SizeAfter(size, offset, r, capacity) == (if size < offset + r then offset + r else size) <==>
            offset <= capacity
  {
  }

  /** One byte at offset 10000 of a file of 100 bytes with one cluster of 512 on a full drive: nothing is written,
      and the file is 512 bytes long. */
  lemma RefusedWriteLengthens(d: Dpb)
    requires d.secsize == 512 && d.spc == 1
    ensures Bytes(d, 1 + 0) == 512 && WriteAnswer(100, 10000, 1, 512) == 0 && SizeAfter(100, 10000, 0, 512) == 512
  {
  }

  /** An offset lies in the first `k` clusters just when these have more bytes. */
  lemma WithinClusters(d: Dpb, offset: nat, k: nat)
    requires d.Valid()
    ensures Rel(d, offset) < k <==> offset < Bytes(d, k)
    ensures Bytes(d, k) == 0 <==> k == 0
  {
    RelBounds(d, offset);
    if Rel(d, offset) < k {
      MulMono(Rel(d, offset) + 1, k, ClusterSize(d));
    } else {
      MulMono(k, Rel(d, offset), ClusterSize(d));
    }
    if k > 0 {
      MulMono(1, k, ClusterSize(d));
    }
  }

  /** What a write answers, and leaves, on a drive that reads reliably: `cap` clusters were in the chain or free,
      `k` are
      in the chain and `free` are free afterwards. A write that stops short has filled the chain and the drive. */
  ghost predicate Answered(d: Dpb, size0: nat, at: nat, count: nat, cap: nat, r: int, size: nat, k: nat, free: nat)
    requires d.Valid()
  {
    && r == WriteAnswer(size0, at, count, Bytes(d, cap))
    && (r >= 0 ==> size == SizeAfter(size0, at, r, Bytes(d, cap)))
    && (0 <= r < count ==> free == 0 && k == cap <= Rel(d, at + r))
  }

  /** What that says of the size: it is as it should be just when there was room up to the offset. */
  lemma AnsweredSize(d: Dpb, size0: nat, at: nat, count: nat, cap: nat, r: int, size: nat, k: nat, free: nat)
    requires d.Valid() && count > 0 && ClustersFor(d, size0) <= cap
    requires Answered(d, size0, at, count, cap, r, size, k, free)
    ensures r == WriteAnswer(size0, at, count, Bytes(d, cap))
    ensures r >= 0 ==> (size == (if size0 < at + r then at + r else size0) <==> at <= Bytes(d, cap))
  {
    ClustersForCeil(d, size0, cap);
    MulMono(ClustersFor(d, size0), cap, ClusterSize(d));
    if r >= 0 {
      SizeRight(size0, at, count, Bytes(d, cap));
    }
  }

  lemma RoomFor(d: Dpb, size: nat, k: nat, free: nat)
    requires d.Valid() && ClustersFor(d, size) <= k
    ensures ClustersFor(d, size) <= k + free
  {
  }

  lemma AnsweredInFull(d: Dpb, size0: nat, at: nat, count: nat, cap: nat, n: nat, size: nat, k: nat, free: nat)
    requires d.Valid() && n <= count && 0 < count && at + count < 0x1_0000_0000 && k + free == cap
    requires n > 0 ==> Rel(d, at + n - 1) < k
    requires n < count ==> free == 0 && k <= Rel(d, at + n)
    requires size == (if n > 0 && size0 < at + n then at + n else size0) && (n == 0 ==> at <= size0)
    ensures Answered(d, size0, at, count, cap, n, size, k, free)
  {
    WithinClusters(d, at + n, cap);
    if n > 0 {
      WithinClusters(d, at + n - 1, cap);
    }
  }

  /** The same after the file was extended to the offset, to the size `size1` and `mid` clusters. */
  lemma AnsweredReached(d: Dpb, size0: nat, size1: nat, at: nat, count: nat, had: nat, mid: nat, k: nat,
                        free0: nat, free1: nat, free: nat, n: nat, size: nat)
    requires d.Valid() && n <= count && 0 < count && at + count < 0x1_0000_0000 && mid <= k
    requires free1 + mid == free0 + had && free + k == free1 + mid
    requires size1 == if size0 < at then at else size0
    requires size0 < at ==> Rel(d, at) < mid
    requires n > 0 ==> Rel(d, at + n - 1) < k
    requires n < count ==> free == 0 && k <= Rel(d, at + n)
    requires size == if n > 0 && size1 < at + n then at + n else size1
    ensures Answered(d, size0, at, count, had + free0, n, size, k, free)
  {
    AnsweredInFull(d, size0, at, count, had + free0, n, size, k, free);
  }

  /** A write beyond the end to which the file could not be extended. */
  lemma AnsweredRefused(d: Dpb, size0: nat, at: nat, count: nat, cap: nat, size: nat)
    requires d.Valid() && size0 < at && cap <= Rel(d, at) && size == if cap == 0 then size0 else Bytes(d, cap)
    ensures Answered(d, size0, at, count, cap, 0, size, cap, 0)
  {
    WithinClusters(d, at, cap);
  }

  /** A write that would pass 4 GB of a file that reaches its offset. */
  lemma AnsweredTooFar(d: Dpb, size0: nat, at: nat, count: nat, cap: nat, size: nat, k: nat, free: nat)
    requires d.Valid() && at + count >= 0x1_0000_0000 && (at <= size0 || Rel(d, at) < k) && k <= cap
    ensures Answered(d, size0, at, count, cap, DE_HNDLDSKFULL, size, k, free)
  {
    WithinClusters(d, at, cap);
  }

  lemma WantedIs(d: Dpb, offset: nat)
    requires d.Valid()
    ensures Wanted(d, offset, false) == Rel(d, offset) + 1
  {
  }

  /** The size of a file of which nothing was written: as it was, or what `dos_extend` made it before a sector could
      not be read or a cluster not be had. */
  ghost predicate Unwritten(fn: FNode, size: nat, at: nat, grown: seq<nat>)
    reads fn
  {
    || fn.size == (if size < at then at else size)
    || fn.size == size
    || (size < at && fn.clusterOffset < |grown| && fn.size == Bytes(fn.vol.dpb, fn.clusterOffset + 1))
  }

  lemma UnwrittenIs(fn: FNode, size: nat, at: nat, grown: seq<nat>)
    requires || fn.size == (if size < at then at else size) || fn.size == size
             || (size < at && fn.clusterOffset < |grown| && fn.size == Bytes(fn.vol.dpb, fn.clusterOffset + 1))
    ensures Unwritten(fn, size, at, grown)
  {
  }

  lemma UnwrittenParts(fn: FNode, size: nat, at: nat, grown: seq<nat>)
    requires Unwritten(fn, size, at, grown)
    ensures || fn.size == (if size < at then at else size) || fn.size == size
            || (size < at && fn.clusterOffset < |grown| && fn.size == Bytes(fn.vol.dpb, fn.clusterOffset + 1))
  {
  }

  /** The loop of `rwblock` for a write. */
  method WriteLoop(fn: FNode, buffer: array<byte>, count: nat, ghost cs: seq<nat>)
    returns (retCnt: nat, ghost grown: seq<nat>)
    requires fn.vol.dpb.Valid() && Clusters(cs) && 0 < count <= buffer.Length
    requires FileOk(fn, cs)
    modifies fn, fn.vol, fn.vol.cache
    ensures FileOk(fn, grown) && retCnt <= count && fn.offset == old(fn.offset) + retCnt
    ensures fn.size == if retCnt > 0 && old(fn.size) < fn.offset then fn.offset else old(fn.size)
    ensures Wrote(fn.vol.dpb, old(Shot(fn.vol)), Shot(fn.vol), cs, grown, old(fn.offset), buffer[..retCnt])
    ensures fn.vol.cache.reliableReads && retCnt < count ==>
              FreeCount(fn.vol.Fat()) == 0 && |grown| <= Rel(fn.vol.dpb, fn.offset)
  {
    hide *;
    FileParts(fn, cs);
    ghost var d, a, at, size := fn.vol.dpb, Shot(fn.vol), fn.offset, fn.size;
    KeptSame(a, cs);
    WroteNothing(d, a, a, cs, cs, at);
    assert buffer[..0] == [];
    retCnt, grown := 0, cs;
    while retCnt < count
      invariant 0 <= retCnt <= count && fn.offset == at + retCnt
      invariant FileOk(fn, grown) && Clusters(grown)
      invariant Wrote(d, a, Shot(fn.vol), cs, grown, at, buffer[..retCnt])
      invariant fn.size == if retCnt > 0 && size < fn.offset then fn.offset else size
    {
      ghost var b, mid, st := Shot(fn.vol), grown, fn.start;
      FileParts(fn, mid);
      var n;
      n, grown := WriteOnce(fn, buffer[retCnt..count], mid);
      FileParts(fn, grown);
      SliceOfSlice(buffer[..], retCnt, count, n);
      ghost var next := at + retCnt;
      WroteTransitive(d, a, b, Shot(fn.vol), cs, mid, grown, st, at, buffer[..retCnt],
                      next, buffer[retCnt..retCnt + n]);
      assert buffer[..retCnt] + buffer[retCnt..retCnt + n] == buffer[..retCnt + n];
      retCnt := retCnt + n;
      if n == 0 {
        break;
      }
    }
  }

  /** A write of a file that `dos_extend` has brought from the state `a`, with size `size` and chain `cs`,
      to its offset. */
  method WriteReached(fn: FNode, buffer: array<byte>, count: nat, ghost a: Snapshot, ghost size: nat,
                      ghost cs: seq<nat>, ghost mid: seq<nat>) returns (r: nat, ghost grown: seq<nat>)
    requires fn.vol.dpb.Valid() && Clusters(mid) && 0 < count <= buffer.Length && fn.offset + count < 0x1_0000_0000
    requires fn.size == if size < fn.offset then fn.offset else size
    requires size < fn.offset ==> Rel(fn.vol.dpb, fn.offset) < |mid|
    requires FileOk(fn, mid) && Kept(a, Shot(fn.vol), cs, mid)
    modifies fn, fn.vol, fn.vol.cache
    ensures FileOk(fn, grown) && r <= count && fn.offset == old(fn.offset) + r
    ensures Wrote(fn.vol.dpb, a, Shot(fn.vol), cs, grown, old(fn.offset), buffer[..r])
    ensures fn.size == if size < fn.offset then fn.offset else size
    ensures fn.vol.cache.reliableReads ==>
              Answered(fn.vol.dpb, size, old(fn.offset), count, |cs| + FreeCount(a.fat),
                       r, fn.size, |grown|, FreeCount(fn.vol.Fat()))
  {
    hide *;
    FileParts(fn, mid);
    ghost var d, at, b, st, size1 := fn.vol.dpb, fn.offset, Shot(fn.vol), fn.start, fn.size;
    r, grown := WriteLoop(fn, buffer, count, mid);
    ReachedWhole(d, a, b, Shot(fn.vol), cs, mid, grown, st, at, buffer[..r]);
    ReachedSize(size, size1, at, r, fn.size);
    if fn.vol.cache.reliableReads {
      ReachedAnswer(d, a, b, Shot(fn.vol), cs, mid, grown, size, size1, at, count, buffer[..r], fn.size);
    }
  }

  /** What was written after the file had reached its offset was written altogether. */
  lemma ReachedWhole(d: Dpb, a: Snapshot, b: Snapshot, c: Snapshot, cs: seq<nat>, mid: seq<nat>, grown: seq<nat>,
                     start: nat, at: nat, bytes: seq<byte>)
    requires d.Valid() && Kept(a, b, cs, mid) && Clusters(mid) && FileChain(b.fat, start, mid)
    requires Wrote(d, b, c, mid, grown, at, bytes)
    ensures Wrote(d, a, c, cs, grown, at, bytes)
  {
    hide *;
    WroteNothing(d, a, b, cs, mid, at);
    WroteTransitive(d, a, b, c, cs, mid, grown, start, at, [], at, bytes);
    assert [] + bytes == bytes;
  }

  lemma ReachedSize(size0: nat, size1: nat, at: nat, n: nat, size: nat)
    requires size1 == if size0 < at then at else size0
    requires size == if n > 0 && size1 < at + n then at + n else size1
    ensures size == if size0 < at + n then at + n else size0
  {
  }

  lemma ReachedAnswer(d: Dpb, a: Snapshot, b: Snapshot, c: Snapshot, cs: seq<nat>, mid: seq<nat>, grown: seq<nat>,
                      size0: nat, size1: nat, at: nat, count: nat, bytes: seq<byte>, size: nat)
    requires d.Valid() && Kept(a, b, cs, mid) && Wrote(d, b, c, mid, grown, at, bytes) && c.exact
    requires 0 < count && |bytes| <= count && at + count < 0x1_0000_0000
    requires size1 == if size0 < at then at else size0
    requires size0 < at ==> Rel(d, at) < |mid|
    requires |bytes| < count ==> FreeCount(c.fat) == 0 && |grown| <= Rel(d, at + |bytes|)
    requires size == if |bytes| > 0 && size1 < at + |bytes| then at + |bytes| else size1
    ensures Answered(d, size0, at, count, |cs| + FreeCount(a.fat), |bytes|, size, |grown|, FreeCount(c.fat))
  {
    hide *;
    SpcPositive(d);
    KeptParts(a, b, cs, mid);
    WroteParts(d, b, c, mid, grown, at, bytes);
    GrownLonger(mid, mid, grown);
    AnsweredReached(d, size0, size1, at, count, |cs|, |mid|, |grown|,
                    FreeCount(a.fat), FreeCount(b.fat), FreeCount(c.fat), |bytes|, size);
  }

  /** `rwblock` for a write of at least one byte, on the fnode of the file. `save` says whether the file's
      entry in the system file table is updated. */
  method WriteBytes(fn: FNode, buffer: array<byte>, count: nat, ghost cs: seq<nat>)
      returns (r: int, save: bool, ghost grown: seq<nat>)
    requires fn.vol.dpb.Valid() && Clusters(cs) && 0 < count <= buffer.Length
    requires fn.offset < 0x1_0000_0000 && count < 0x1_0000
    requires FileOk(fn, cs)
    modifies fn, fn.vol, fn.vol.cache
    ensures FileOk(fn, grown)
    ensures r == DE_HNDLDSKFULL || 0 <= r <= count
    ensures r == DE_HNDLDSKFULL ==> !save && old(fn.offset) + count >= 0x1_0000_0000
    ensures r >= 0 ==> save && fn.offset == old(fn.offset) + r
    ensures Wrote(fn.vol.dpb, old(Shot(fn.vol)), Shot(fn.vol), cs, grown,
                  old(fn.offset), buffer[..if r > 0 then r else 0])
    ensures fn.size <= old(fn.size) || fn.size <= fn.offset
    ensures r > 0 ==> fn.size == if old(fn.size) < fn.offset then fn.offset else old(fn.size)
    ensures r == 0 ==> Unwritten(fn, old(fn.size), fn.offset, grown)
    ensures r > 0 ==> old(fn.offset) + count < 0x1_0000_0000
    ensures fn.vol.cache.reliableReads ==>
              Answered(fn.vol.dpb, old(fn.size), old(fn.offset), count, |cs| + FreeCount(old(fn.vol.Fat())),
                       r, fn.size, |grown|, FreeCount(fn.vol.Fat()))
  {
    hide *;
    Codes();
    FileParts(fn, cs);
    ghost var d, a, at, size := fn.vol.dpb, Shot(fn.vol), fn.offset, fn.size;
    ghost var cap := |cs| + FreeCount(a.fat);
    WantedIs(d, at);
    r, grown := ExtendFile(fn, false, cs);
    KeptParts(a, Shot(fn.vol), cs, grown);
    WroteNothing(d, a, Shot(fn.vol), cs, grown, at);
    assert buffer[..0] == [];
    if r != SUCCESS {
      FileParts(fn, grown);
      UnwrittenIs(fn, size, at, grown);
      if fn.vol.cache.reliableReads {
        AnsweredRefused(d, size, at, count, cap, fn.size);
      }
      return 0, true, grown;
    }
    if (fn.offset + count) % 0x1_0000_0000 < fn.offset {
      if fn.vol.cache.reliableReads {
        AnsweredTooFar(d, size, at, count, cap, fn.size, |grown|, FreeCount(fn.vol.Fat()));
      }
      return DE_HNDLDSKFULL, false, grown;
    }
    r, grown := WriteReached(fn, buffer, count, a, size, cs, grown);
    UnwrittenIs(fn, size, fn.offset, grown);
    save := true;
  }

  /** What truncation does: the file's new chain is the old one grown or cut, other clusters and all data
      sectors stay, nothing new points to another file, and every FAT write was safe. */
  ghost predicate Resized(a: Snapshot, b: Snapshot, cs: seq<nat>, left: seq<nat>) {
    && |b.fat| == |a.fat| && b.rest == a.rest && LoggedSafely(a.log, b.log)
    && (cs <= left || left <= cs)
    && (forall c :: 2 <= c < |a.fat| && a.fat[c] != FREE && c !in cs ==> b.fat[c] == a.fat[c])
    && (forall x: nat :: 2 <= x < |a.fat| && a.fat[x] != FREE && Unpointed(a.fat, x) ==> Unpointed(b.fat, x))
  }

  lemma ResizedBy(a: Snapshot, b: Snapshot, c: Snapshot, start: nat, cs: seq<nat>, start': nat, grown: seq<nat>,
                  left: seq<nat>)
    requires Safe(a.fat) && FileChain(a.fat, start, cs) && Kept(a, b, cs, grown) && FileChain(b.fat, start', grown)
    requires OutsideKept(b.fat, c.fat, grown) && OnlyCut(b.fat, c.fat) && c.rest == b.rest && LoggedSafely(b.log, c.log)
    requires grown == left || left <= grown
    ensures Resized(a, c, cs, left)
  {
    LoggedTransitive(a.log, b.log, c.log);
    if grown != [] {
      UsedChain(b.fat, grown);
    }
    PrefixMembers(cs, grown);
    assert cs <= left || left <= cs;
    forall x: nat | 2 <= x < |a.fat| && a.fat[x] != FREE && Unpointed(a.fat, x) ensures Unpointed(c.fat, x) {
      GrownUnpointed(a.fat, b.fat, start, cs, start', grown, x);
      CutUnpointed(b.fat, c.fat, x);
    }
  }

  lemma PrefixOf(cs: seq<nat>, n: nat)
    requires n <= |cs|
    ensures cs[..n] <= cs && |cs[..n]| == n
  {
  }

  /** What a write of no bytes leaves on a drive that reads reliably: `cap` clusters were in the chain or free, `k` are
      in the chain and `free` are free afterwards. It succeeds just when the clusters for the offset were to be had. */
  ghost predicate Truncated(d: Dpb, size0: nat, at: nat, cap: nat, size: nat, k: nat, free: nat)
    requires d.Valid()
  {
    if ClustersFor(d, at) <= cap then size == at && k == ClustersFor(d, at)
    else k == cap && free == 0 && size == if cap == 0 then size0 else Bytes(d, cap)
  }

  lemma TruncatedIs(d: Dpb, size0: nat, at: nat, cap: nat, size: nat, k: nat, free: nat)
    requires d.Valid()
    requires if ClustersFor(d, at) <= cap then size == at && k == ClustersFor(d, at)
             else k == cap && free == 0 && size == if cap == 0 then size0 else Bytes(d, cap)
    ensures Truncated(d, size0, at, cap, size, k, free)
  {
  }

  /** `rwblock` for a write of no bytes: the file ends at its offset, with exactly the clusters that takes. */
  method WriteNone(fn: FNode, ghost cs: seq<nat>)
    returns (r: int, save: bool, ghost left: seq<nat>, ghost grown: seq<nat>)
    requires fn.vol.dpb.Valid() && Clusters(cs)
    requires FileOk(fn, cs)
    modifies fn, fn.vol, fn.vol.cache
    ensures fn.Open(left) && fn.offset == old(fn.offset) && (r == 0 || (r == DE_ACCESS && !fn.vol.cache.reliableReads))
    ensures (save <==> r == 0)
    ensures Resized(old(Shot(fn.vol)), Shot(fn.vol), cs, left)
    ensures fn.size <= old(fn.size) || fn.size <= fn.offset
    ensures r == 0 ==> FileOk(fn, left)
    ensures r != 0 ==>
              Kept(old(Shot(fn.vol)), Shot(fn.vol), cs, grown) && FileChain(fn.vol.Fat(), StartOf(grown), grown)
    ensures fn.vol.cache.reliableReads ==>
              Truncated(fn.vol.dpb, old(fn.size), fn.offset, |cs| + FreeCount(old(fn.vol.Fat())), fn.size, |left|,
                        FreeCount(fn.vol.Fat()))
  {
    hide *;
    Codes();
    FileParts(fn, cs);
    WantedForNone(fn.vol.dpb, fn.offset);
    ghost var a, st0 := Shot(fn.vol), fn.start;
    var ok;
    ok, grown := ExtendFile(fn, true, cs);
    ghost var b, st := Shot(fn.vol), fn.start;
    ghost var d, at, cap, size0 := fn.vol.dpb, fn.offset, |cs| + FreeCount(a.fat), old(fn.size);
    KeptParts(a, b, cs, grown);
    FileParts(fn, grown);
    NothingCut(b.fat, grown);
    LoggedTransitive(b.log, [], []);
    if ok != SUCCESS {
      if fn.vol.cache.reliableReads {
        TruncatedIs(d, size0, at, cap, fn.size, |grown|, FreeCount(b.fat));
      }
      ResizedBy(a, b, b, st0, cs, st, grown, grown);
      return 0, true, grown, grown;
    }
    SizeShrinks(fn.vol.dpb, fn.offset, fn.size);
    fn.size := fn.offset;
    fn.OpenWhole(grown);
    r, left := ShrinkFile(fn, grown);
    PrefixOf(grown, if r == SUCCESS then ClustersFor(fn.vol.dpb, fn.offset) else 0);
    ResizedBy(a, b, Shot(fn.vol), st0, cs, st, grown, left);
    StaysAsGrown(a, b, Shot(fn.vol), cs, grown, st);
    if r == SUCCESS {
      FileWhole(fn, left);
    }
    if fn.vol.cache.reliableReads {
      TruncatedIs(d, size0, at, cap, fn.size, |left|, FreeCount(fn.vol.Fat()));
    }
    save := r == SUCCESS;
  }

  function StartOf(cs: seq<nat>): nat {
    if cs == [] then FREE else cs[0]
  }

  lemma StaysAsGrown(a: Snapshot, b: Snapshot, c: Snapshot, cs: seq<nat>, grown: seq<nat>, start: nat)
    requires Kept(a, b, cs, grown) && FileChain(b.fat, start, grown)
    requires c.rest == b.rest && LoggedSafely(b.log, c.log) && c.exact == b.exact
    ensures c.fat == b.fat ==> Kept(a, c, cs, grown) && FileChain(c.fat, StartOf(grown), grown)
  {
    LoggedTransitive(a.log, b.log, c.log);
  }

  lemma WantedForNone(d: Dpb, offset: nat)
    requires d.Valid()
    ensures Wanted(d, offset, true) == ClustersFor(d, offset)
  {
  }

  lemma SizeShrinks(d: Dpb, offset: nat, size: nat)
    requires d.Valid() && offset <= size
    ensures ClustersFor(d, offset) <= ClustersFor(d, size)
  {
    if offset > 0 {
      RelMonotone(d, offset - 1, size - 1);
    }
  }
}
