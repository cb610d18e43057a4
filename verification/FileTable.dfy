/** `rwblock` of kernel/fatfs.c as a whole: the entry of the system file table is copied into
    the fnode, the transfer made, and the entry brought up to date; other files see nothing of it. */
module FileTable {
  import opened ErrorCodes
  import opened Arith
  import opened FatPacking
  import opened BlockIo
  import opened FatTable
  import opened FatChains
  import opened FatFiles
  import opened FileSize
  import opened FileData
  import opened DataBlocks
  import opened FileIo
  import opened FileWrite

  /** The file with chain `ds` has the same bytes on `r1` as on `r0`. */
  ghost predicate SameBytes(d: Dpb, r0: Disk, r1: Disk, ds: seq<nat>)
    requires d.secsize > 0 && d.spc > 0
  {
    Clusters(ds) && forall i: nat :: Rel(d, i) < |ds| ==> FileByte(d, r1, ds, i) == FileByte(d, r0, ds, i)
  }

  /** Every file but the one starting at `start` has its chain and its bytes as before. */
  ghost predicate OtherFilesKept(d: Dpb, a: Snapshot, b: Snapshot, start: nat)
    requires d.secsize > 0 && d.spc > 0
  {
    forall x: nat, ds: seq<nat> :: x != FREE && x != start && FileChain(a.fat, x, ds) ==>
      FileChain(b.fat, x, ds) && SameBytes(d, a.rest, b.rest, ds)
  }

  lemma StartUsed(fat: seq<nat>, x: nat, ds: seq<nat>)
    requires FileChain(fat, x, ds) && x != FREE
    ensures 2 <= x < |fat| && fat[x] != FREE && Unpointed(fat, x)
    ensures forall c :: c in ds ==> 2 <= c < |fat| && fat[c] != FREE
  {
    UsedChain(fat, ds);
    assert ds[0] in ds;
  }

  /** A write leaves every other file as it was. */
  lemma WriteTouchesNoOther(d: Dpb, a: Snapshot, b: Snapshot, start: nat, cs: seq<nat>, start': nat, grown: seq<nat>,
                            at: nat, bytes: seq<byte>)
    requires d.secsize > 0 && d.spc > 0 && Wrote(d, a, b, cs, grown, at, bytes)
    requires Safe(a.fat) && FileChain(a.fat, start, cs) && FileChain(b.fat, start', grown)
    ensures OtherFilesKept(d, a, b, start)
  {
    hide *;
    EndMarks();
    WroteParts(d, a, b, cs, grown, at, bytes);
    GrownParts(a.fat, b.fat, cs, grown);
    forall x: nat, ds: seq<nat> | x != FREE && x != start && FileChain(a.fat, x, ds)
      ensures FileChain(b.fat, x, ds) && SameBytes(d, a.rest, b.rest, ds)
    {
      StartUsed(a.fat, x, ds);
      ChainClusters(a.fat, x, ds);
      FilesDisjoint(a.fat, start, cs, x, ds);
      SafeSize(a.fat);
      GrownUnpointed(a.fat, b.fat, start, cs, start', grown, x);
      OtherChainKept(a.fat, b.fat, cs, x, ds);
      NotInGrown(a.fat, cs, grown, ds);
      OthersSame(d, a.rest, b.rest, grown, ds);
    }
    OthersIs(d, a, b, start);
  }

  lemma GrownParts(f: seq<nat>, g: seq<nat>, cs: seq<nat>, grown: seq<nat>)
    requires Grown(f, g, cs, grown)
    ensures forall c :: 2 <= c < |f| && f[c] != FREE && c !in cs ==> c < |g| && g[c] == f[c]
    ensures forall i :: |cs| <= i < |grown| ==> 2 <= grown[i] < |f| && f[grown[i]] == FREE
  {
  }

  lemma SafeSize(fat: seq<nat>)
    requires Safe(fat)
    ensures |fat| <= LONG_BAD
  {
  }

  lemma NotInGrown(fat: seq<nat>, cs: seq<nat>, grown: seq<nat>, ds: seq<nat>)
    requires cs <= grown && forall i :: |cs| <= i < |grown| ==> 2 <= grown[i] < |fat| && fat[grown[i]] == FREE
    requires forall c :: c in ds ==> 2 <= c < |fat| && fat[c] != FREE
    requires forall c :: c in ds ==> c !in cs
    ensures forall c :: c in ds ==> c !in grown
  {
    PrefixMembers(cs, grown);
    assert forall c :: c in grown[|cs|..] ==> 2 <= c < |fat| && fat[c] == FREE;
  }

  lemma OthersSame(d: Dpb, r0: Disk, r1: Disk, cs: seq<nat>, ds: seq<nat>)
    requires d.secsize > 0 && d.spc > 0 && RestKept(d, r0, r1, cs) && Clusters(ds)
    requires forall c :: c in ds ==> c !in cs
    ensures SameBytes(d, r0, r1, ds)
  {
    forall i: nat | Rel(d, i) < |ds| ensures FileByte(d, r1, ds, i) == FileByte(d, r0, ds, i) {
      assert ds[Rel(d, i)] in ds;
      OtherBytes(d, r0, r1, cs, ds, i);
    }
  }

  lemma OthersIs(d: Dpb, a: Snapshot, b: Snapshot, start: nat)
    requires d.secsize > 0 && d.spc > 0
    requires forall x: nat, ds: seq<nat> :: x != FREE && x != start && FileChain(a.fat, x, ds) ==>
               FileChain(b.fat, x, ds) && SameBytes(d, a.rest, b.rest, ds)
    ensures OtherFilesKept(d, a, b, start)
  {
  }

  /** Truncation leaves every other file as it was. */
  lemma ResizeTouchesNoOther(d: Dpb, a: Snapshot, b: Snapshot, start: nat, cs: seq<nat>, left: seq<nat>)
    requires d.secsize > 0 && d.spc > 0 && Resized(a, b, cs, left) && Safe(a.fat) && FileChain(a.fat, start, cs)
    ensures OtherFilesKept(d, a, b, start)
  {
    hide Safe, FileChain, FileByte, Unpointed;
    forall x: nat, ds: seq<nat> | x != FREE && x != start && FileChain(a.fat, x, ds)
      ensures FileChain(b.fat, x, ds) && SameBytes(d, a.rest, b.rest, ds)
    {
      StartUsed(a.fat, x, ds);
      ChainClusters(a.fat, x, ds);
      FilesDisjoint(a.fat, start, cs, x, ds);
      OtherChainKept(a.fat, b.fat, cs, x, ds);
    }
  }

  /** A chain has no more clusters than the FAT has entries. */
  lemma {:induction false} DistinctBound(cs: seq<nat>, m: nat)
    requires forall i :: 0 <= i < |cs| ==> cs[i] < m
    requires forall i, j :: 0 <= i < j < |cs| ==> cs[i] != cs[j]
    ensures |cs| <= m
    decreases m
  {
    assert cs != [] ==> cs[0] < m;
    if m > 0 {
      if k :| 0 <= k < |cs| && cs[k] == m - 1 {
        var rest := cs[..k] + cs[k + 1..];
        forall i, j | 0 <= i < j < |rest| ensures rest[i] != rest[j] {
          assert rest[i] == cs[if i < k then i else i + 1] && rest[j] == cs[if j < k then j else j + 1];
        }
        DistinctBound(rest, m - 1);
      } else {
        DistinctBound(cs, m - 1);
      }
    }
  }

  lemma ChainFits(fn: FNode, cs: seq<nat>)
    requires FileOk(fn, cs)
    ensures fn.clusterOffset < 0x1_0000_0000
  {
    ChainClusters(fn.vol.Fat(), fn.start, cs);
    if cs != [] {
      DistinctBound(cs, |fn.vol.Fat()|);
    }
  }

  lemma NodeWhole(fn: FNode, cs: seq<nat>)
    requires fn.vol.dpb.Valid() && fn.vol.dpb.secsize > 0 && fn.vol.dpb.spc > 0
    requires Ready(fn.vol) && Safe(fn.vol.Fat()) && FileChain(fn.vol.Fat(), fn.start, cs)
    requires DataThere(fn.vol.dpb, fn.vol.Rest()) && ClustersFor(fn.vol.dpb, fn.size) <= |cs|
    requires if cs == [] then fn.cluster == FREE && fn.clusterOffset == 0
             else fn.clusterOffset < |cs| && fn.cluster == cs[fn.clusterOffset]
    ensures FileOk(fn, cs)
  {
  }

  /** An entry of the system file table, the parts that `rwblock` uses. The relative cluster is kept as two words. */
  class Sft {
    const vol: Volume
    var size: nat
    var start: nat
    var posit: nat
    var cuclust: nat
    var relclust: nat
    var relclustHigh: nat

    constructor (vol: Volume)
      ensures this.vol == vol && size == 0 && start == FREE && posit == 0 && cuclust == FREE && Rel() == 0
    {
      this.vol := vol;
      size, start, posit, cuclust, relclust, relclustHigh := 0, FREE, 0, FREE, 0, 0;
    }

    function Rel(): nat
      reads this
    {
      relclust + 0x1_0000 * relclustHigh
    }

    /** The entry is right about a file with chain `cs`. */
    ghost predicate Holds(cs: seq<nat>)
      reads this, vol, vol.cache
    {
      && size < 0x1_0000_0000 && posit < 0x1_0000_0000
      && Ready(vol) && Safe(vol.Fat()) && FileChain(vol.Fat(), start, cs)
      && DataThere(vol.dpb, vol.Rest()) && ClustersFor(vol.dpb, size) <= |cs|
      && if cs == [] then cuclust == FREE && Rel() == 0 else Rel() < |cs| && cuclust == cs[Rel()]
    }

    lemma HoldsParts(cs: seq<nat>)
      requires Holds(cs)
      ensures vol.dpb.Valid() && Clusters(cs) && vol.dpb.secsize > 0 && vol.dpb.spc > 0 && |vol.Fat()| <= LONG_BAD
      ensures Safe(vol.Fat()) && FileChain(vol.Fat(), start, cs) && size < 0x1_0000_0000 && posit < 0x1_0000_0000
      ensures Placed(cs) && ClustersFor(vol.dpb, size) <= |cs|
    {
      ChainClusters(vol.Fat(), start, cs);
    }

    /** What the entry says of chain `cs`, whatever the FAT. */
    ghost predicate Placed(cs: seq<nat>)
      reads this
    {
      && vol.dpb.Valid() && ClustersFor(vol.dpb, size) <= |cs| && start == StartOf(cs)
      && if cs == [] then cuclust == FREE && Rel() == 0 else Rel() < |cs| && cuclust == cs[Rel()]
    }

    /** An entry that was not brought up to date after its chain had grown is still right: about no chain if the
        file had none, and about the longer one otherwise. */
    lemma Unsaved(cs: seq<nat>, grown: seq<nat>, newStart: nat)
      requires size < 0x1_0000_0000 && posit < 0x1_0000_0000 && Ready(vol) && Safe(vol.Fat())
      requires DataThere(vol.dpb, vol.Rest())
      requires FileChain(vol.Fat(), newStart, grown) && cs <= grown && Placed(cs)
      ensures Holds(if cs == [] then [] else grown)
    {
      if cs != [] {
        assert grown[0] == cs[0] && grown[Rel()] == cs[Rel()] && |cs| <= |grown|;
      }
    }

    /** `sft_to_fnode`. */
    method ToFNode(ghost cs: seq<nat>) returns (fn: FNode)
      requires Holds(cs)
      ensures fresh(fn) && fn.vol == vol && FileOk(fn, cs) && fn.size == size && fn.offset == posit && fn.start == start
    {
      hide *;
      HoldsAll(cs);
      fn := new FNode(vol, start, size, posit, cuclust, relclust + 0x1_0000 * relclustHigh);
      NodeWhole(fn, cs);
    }

    lemma HoldsAll(cs: seq<nat>)
      requires Holds(cs)
      ensures vol.dpb.Valid() && vol.dpb.secsize > 0 && vol.dpb.spc > 0
      ensures Ready(vol) && Safe(vol.Fat()) && FileChain(vol.Fat(), start, cs)
      ensures DataThere(vol.dpb, vol.Rest()) && ClustersFor(vol.dpb, size) <= |cs|
      ensures var rel := relclust + 0x1_0000 * relclustHigh;
              if cs == [] then cuclust == FREE && rel == 0 else rel < |cs| && cuclust == cs[rel]
    {
    }

    /** `fnode_to_sft`. */
    method FromFNode(fn: FNode, ghost cs: seq<nat>)
      requires fn.vol == vol && FileOk(fn, cs) && fn.size < 0x1_0000_0000 && fn.offset < 0x1_0000_0000
      modifies this
      ensures Holds(cs) && size == fn.size && posit == fn.offset && start == fn.start && Rel() == fn.clusterOffset
    {
      hide *;
      ChainFits(fn, cs);
      FileParts(fn, cs);
      Words(fn.clusterOffset);
      size, start, posit, cuclust := fn.size, fn.start, fn.offset, fn.cluster;
      relclust, relclustHigh := fn.clusterOffset % 0x1_0000, fn.clusterOffset / 0x1_0000 % 0x1_0000;
      HoldsWhole(cs);
      RelIs();
    }

    lemma RelIs()
      ensures Rel() == relclust + 0x1_0000 * relclustHigh
    {
    }

    lemma HoldsWhole(cs: seq<nat>)
      requires size < 0x1_0000_0000 && posit < 0x1_0000_0000
      requires Ready(vol) && Safe(vol.Fat()) && FileChain(vol.Fat(), start, cs)
      requires DataThere(vol.dpb, vol.Rest()) && ClustersFor(vol.dpb, size) <= |cs|
      requires var rel := relclust + 0x1_0000 * relclustHigh;
               if cs == [] then cuclust == FREE && rel == 0 else rel < |cs| && cuclust == cs[rel]
      ensures Holds(cs)
    {
    }

    /** `rwblock` for a read. */
    method ReadFile(buffer: array<byte>, count: nat, ghost cs: seq<nat>) returns (r: int)
      requires vol.dpb.secsize > 0 && vol.dpb.spc > 0 && Clusters(cs) && count <= buffer.Length
      requires Holds(cs)
      modifies this, vol, vol.cache, buffer
      ensures Holds(cs) && size == old(size) && start == old(start)
      ensures vol.Fat() == old(vol.Fat()) && vol.Rest() == old(vol.Rest())
      ensures vol.cache.reliableReads ==> r == Readable(size, old(posit), count)
      ensures r == DE_ACCESS || (0 <= r <= count && r <= Readable(size, old(posit), count))
      ensures r >= 0 ==> posit == old(posit) + r && Reads(vol.dpb, vol.Rest(), cs, old(posit), buffer[..r])
      ensures r >= 0 ==> buffer[r..] == old(buffer[r..])
    {
      hide *;
      Codes();
      HoldsParts(cs);
      var fn := ToFNode(cs);
      r := ReadBlock(fn, buffer, count, cs);
      FromFNode(fn, cs);
    }

    /** `rwblock` for a write of at least one byte. `left` is the chain that the entry then stands for: when the
        write would have passed the end of a 4 GB file, clusters added by then are not yet part of an empty file. */
    method WriteFile(buffer: array<byte>, count: nat, ghost cs: seq<nat>) returns (r: int, ghost left: seq<nat>)
      requires vol.dpb.secsize > 0 && vol.dpb.spc > 0 && Clusters(cs) && 0 < count <= buffer.Length && count < 0x1_0000
      requires Holds(cs)
      modifies this, vol, vol.cache
      ensures Holds(left) && Clusters(left) && cs <= left
      ensures r == DE_HNDLDSKFULL || 0 <= r <= count
      ensures r == DE_HNDLDSKFULL ==> old(posit) + count >= 0x1_0000_0000 && posit == old(posit) && size == old(size)
      ensures r >= 0 ==> posit == old(posit) + r
      ensures r > 0 ==> size == if old(size) < posit then posit else old(size)
      ensures ByteSpliced(vol.dpb, old(vol.Rest()), vol.Rest(), left, old(posit), if r > 0 then buffer[..r] else [])
      ensures OtherFilesKept(vol.dpb, old(Shot(vol)), Shot(vol), old(start))
      ensures LoggedSafely(old(vol.log), vol.log)
      ensures r == 0 ==> || size == (if old(size) < posit then posit else old(size)) || size == old(size)
                         || (old(size) < posit && Rel() < |left| && size == Bytes(vol.dpb, Rel() + 1))
      ensures vol.cache.reliableReads && r >= 0 ==>
                Answered(vol.dpb, old(size), old(posit), count, |cs| + FreeCount(old(vol.Fat())),
                         r, size, |left|, FreeCount(vol.Fat()))
      ensures vol.cache.reliableReads ==>
                var capacity := Bytes(vol.dpb, |cs| + FreeCount(old(vol.Fat())));
                && r == WriteAnswer(old(size), old(posit), count, capacity)
                && (r >= 0 ==> (size == (if old(size) < posit then posit else old(size)) <==> old(posit) <= capacity))
    {
      hide *;
      Codes();
      HoldsParts(cs);
      ghost var d, a := vol.dpb, Shot(vol);
      var fn := ToFNode(cs);
      var save;
      r, save, left := WriteBytes(fn, buffer, count, cs);
      FileParts(fn, left);
      WroteParts(d, a, Shot(vol), cs, left, posit, buffer[..if r > 0 then r else 0]);
      WriteTouchesNoOther(d, a, Shot(vol), start, cs, fn.start, left, posit, buffer[..if r > 0 then r else 0]);
      assert buffer[..0] == [];
      if r == 0 {
        UnwrittenParts(fn, size, fn.offset, left);
      }
      if vol.cache.reliableReads {
        RoomFor(d, size, |cs|, FreeCount(a.fat));
        AnsweredSize(d, size, posit, count, |cs| + FreeCount(a.fat), r, fn.size, |left|, FreeCount(vol.Fat()));
      }
      if save {
        FromFNode(fn, left);
      } else {
        Unsaved(cs, left, fn.start);
        NoBytes(d, a.rest, vol.Rest(), posit);
        left := if cs == [] then [] else left;
      }
    }

    /** `rwblock` for a write of no bytes: the file ends at its offset, with the clusters that takes, or else the
        drive is full. What lies before the new end is as before. */
    method TruncateFile(ghost cs: seq<nat>) returns (r: int, ghost left: seq<nat>)
      requires vol.dpb.Valid() && vol.dpb.secsize > 0 && vol.dpb.spc > 0 && Clusters(cs)
      requires Holds(cs)
      modifies this, vol, vol.cache
      ensures Holds(left) && Clusters(left) && (cs <= left || left <= cs) && vol.Rest() == old(vol.Rest())
      ensures posit == old(posit) && (r == 0 || (r == DE_ACCESS && !vol.cache.reliableReads))
      ensures OtherFilesKept(vol.dpb, old(Shot(vol)), Shot(vol), old(start))
      ensures LoggedSafely(old(vol.log), vol.log)
      ensures vol.cache.reliableReads ==>
                Truncated(vol.dpb, old(size), posit, |cs| + FreeCount(old(vol.Fat())),
                          size, |left|, FreeCount(vol.Fat()))
    {
      hide *;
      Codes();
      HoldsAll(cs);
      HoldsParts(cs);
      ghost var d, a := vol.dpb, Shot(vol);
      var fn := ToFNode(cs);
      var save;
      ghost var grown;
      r, save, left, grown := WriteNone(fn, cs);
      ResizedParts(a, Shot(vol), cs, left);
      ResizeTouchesNoOther(d, a, Shot(vol), start, cs, left);
      if save {
        FileParts(fn, left);
        FromFNode(fn, left);
      } else {
        fn.OpenParts(left);
        KeptParts(a, Shot(vol), cs, grown);
        GrownPrefix(a, Shot(vol), cs, grown);
        Unsaved(cs, grown, StartOf(grown));
        left := if cs == [] then [] else grown;
        HoldsParts(left);
      }
    }
  }

  lemma ResizedParts(a: Snapshot, b: Snapshot, cs: seq<nat>, left: seq<nat>)
    requires Resized(a, b, cs, left)
    ensures b.rest == a.rest && LoggedSafely(a.log, b.log) && (cs <= left || left <= cs)
  {
  }

  lemma NoBytes(d: Dpb, r0: Disk, r1: Disk, at: nat)
    requires d.secsize > 0 && d.spc > 0
    ensures Clusters([]) && ByteSpliced(d, r0, r1, [], at, [])
  {
  }

  lemma Words(n: nat)
    requires n < 0x1_0000_0000
    ensures n % 0x1_0000 + 0x1_0000 * (n / 0x1_0000 % 0x1_0000) == n
  {
  }

  /** The FAT areas of a drive that holds one volume. */
  function DriveOf(d: Dpb): map<int, FatArea> {
    map[d.unit := FatArea(d.FatStart(), d.FatSectors(), d.Copies())]
  }

  /** A disk with a FAT in which nothing is in use, the same in all its copies, and all sectors of the clusters. */
  ghost predicate Formatted(d: Dpb, disk: Disk) {
    && d.Valid() && d.Copies() >= 1 && (forall b :: b in disk ==> |disk[b]| == d.secsize)
    && (forall b :: InPrimary(DriveOf(d), b) || IsMirror(DriveOf(d), b) || InData(d, b) ==> b in disk)
    && (forall u :: CopiesAgree(DriveOf(d), disk, u))
    && forall c :: 2 <= c <= d.MaxCluster() ==> d.Fat(disk)[c] == FREE
  }

  /** A disk of zeros is one. */
  lemma ZeroedFormatted(d: Dpb, disk: Disk)
    requires d.Valid() && d.Copies() >= 1
    requires forall b :: b in disk ==> disk[b] == seq(d.secsize, i => 0)
    requires forall b :: InPrimary(DriveOf(d), b) || IsMirror(DriveOf(d), b) || InData(d, b) ==> b in disk
    ensures Formatted(d, disk)
  {
    hide InData, InPrimary, Dpb.Fat, Dpb.Image;
    forall u ensures CopiesAgree(DriveOf(d), disk, u) {
      ZeroCopies(d, disk, u);
    }
    forall c | 2 <= c <= d.MaxCluster() ensures d.Fat(disk)[c] == FREE {
      FatEntry(d, disk, c);
      ZeroImage(d, disk);
      ZeroEntry(d.Kind(), d.Image(disk), c);
    }
  }

  lemma ZeroCopies(d: Dpb, disk: Disk, u: int)
    requires forall b :: b in disk ==> disk[b] == seq(d.secsize, i => 0)
    requires forall b :: InPrimary(DriveOf(d), b) || IsMirror(DriveOf(d), b) ==> b in disk
    ensures CopiesAgree(DriveOf(d), disk, u)
  {
    forall b, j: nat | InPrimary(DriveOf(d), b) && b.unit == u && 1 <= j < DriveOf(d)[b.unit].copies
      ensures var c := Copy(b, DriveOf(d)[u].size, j); c in disk && b in disk && disk[c] == disk[b]
    {
      CopyIsMirror(DriveOf(d), b, j);
    }
  }

  lemma ZeroImage(d: Dpb, disk: Disk)
    requires d.secsize > 0 && forall b :: b in disk ==> disk[b] == seq(d.secsize, i => 0)
    ensures forall k :: 0 <= k < |d.Image(disk)| ==> d.Image(disk)[k] == 0
  {
  }

  lemma ZeroEntry(kind: Kind, img: seq<byte>, c: nat)
    requires Fits(kind, |img|, c) && forall k :: 0 <= k < |img| ==> img[k] == 0
    ensures Read(kind, img, c) == FREE
  {
    hide *;
    EndMarks();
    ZeroWords();
    ZeroBits(c);
    match kind
    case Fat12 => Entry12(img, c, 0);
    case Fat16 => Entry16(img, c, 0);
    case Fat32 => Entry32(img, c, 0);
  }

  /** What the kernel sees of such a disk through an empty cache. */
  lemma SeenFresh(d: Dpb, disk: Disk, l: Disk)
    requires Formatted(d, disk) && l == map b | b in disk && !IsMirror(DriveOf(d), b) :: disk[b]
    ensures d.Fat(l) == d.Fat(disk) && DataThere(d, d.Rest(l))
    ensures Safe(d.Fat(l)) && FreeCount(d.Fat(l)) == d.MaxCluster() - 1
  {
    FatInPrimary(d);
    FatKept(d, disk, l);
    SeenData(d, disk, l);
    FewerThanMarks(d);
    hide *;
    EmptySafe(d.Fat(disk));
    EmptyFree(d.Fat(disk));
  }

  lemma FatInPrimary(d: Dpb)
    ensures forall b :: d.InFat(b) ==> InPrimary(DriveOf(d), b) && !IsMirror(DriveOf(d), b)
  {
  }

  lemma FewerThanMarks(d: Dpb)
    requires d.Valid()
    ensures 2 <= d.MaxCluster() + 1 <= LONG_BAD
  {
  }

  lemma SeenData(d: Dpb, disk: Disk, l: Disk)
    requires Formatted(d, disk) && l == map b | b in disk && !IsMirror(DriveOf(d), b) :: disk[b]
    ensures d.Valid() && DataThere(d, d.Rest(l))
  {
    forall b | InData(d, b) ensures b in d.Rest(l) && |d.Rest(l)[b]| == d.secsize {
      DataOutsideFat(d, DriveOf(d), b);
    }
  }

  /** A file on a formatted drive, from the disk on: through a fresh cache of `n` buffers the volume is in good order,
      and the new file is right about having no clusters. */
  method FirstFile(d: Dpb, disk: Disk, n: nat, base: seq<nat>, bufsize: nat, inHma: bool, reliableReads: bool)
    returns (s: Sft)
    requires Formatted(d, disk) && n >= 2
    ensures fresh(s) && fresh(s.vol) && fresh(s.vol.cache) && s.vol.dpb == d && s.vol.cache.disk == disk
    ensures s.Holds([]) && s.size == 0 && FreeCount(s.vol.Fat()) == d.MaxCluster() - 1
  {
    hide *;
    FormattedParts(d, disk);
    var cache := new BufferCache(n, d.secsize, DriveOf(d), disk, base, bufsize, inHma, reliableReads, true);
    var vol := Mount(d, cache);
    SeenFresh(d, disk, cache.logical);
    s := new Sft(vol);
    NothingHeld(s);
  }

  lemma FormattedParts(d: Dpb, disk: Disk)
    requires Formatted(d, disk)
    ensures d.Valid() && d.secsize > 0 && d.spc > 0 && forall b :: b in disk ==> |disk[b]| == d.secsize
    ensures forall b :: InPrimary(DriveOf(d), b) || IsMirror(DriveOf(d), b) ==> b in disk
    ensures forall u :: u in DriveOf(d) ==> DriveOf(d)[u].copies >= 1
    ensures forall u :: CopiesAgree(DriveOf(d), disk, u)
    ensures d.unit in DriveOf(d) && DriveOf(d)[d.unit] == FatArea(d.FatStart(), d.FatSectors(), d.Copies())
  {
  }

  lemma NothingHeld(s: Sft)
    requires s.size == 0 && s.posit == 0 && s.start == FREE && s.cuclust == FREE && s.Rel() == 0
    requires Ready(s.vol) && Safe(s.vol.Fat()) && s.vol.dpb.spc > 0 && DataThere(s.vol.dpb, s.vol.Rest())
    ensures s.Holds([])
  {
  }
}
