/** The default layout of a FAT volume: `CalculateFATData` of kernel/initdisk.c chooses it from the size of
    the partition (FAT32 File System Specification 1.03, "FAT Volume Initialization"), and `bpb_to_dpb` of
    kernel/fatfs.c reads it back. */
module Geometry {
  import opened Arith
  import opened FatPacking
  import opened FatTable

  const MAXCLUSTSIZE: nat := 128
  const FAT16MAX: nat := 65519
  const FAT32MAX: nat := 268435449
  const DIRENT_SIZE: nat := 32

  /** The parts of a BIOS parameter block that the layout is in. */
  datatype Bpb = Bpb(nbyte: nat, nsector: nat, nreserved: nat, nfat: nat, ndirent: nat,
                     nsize: nat, huge: nat, nfsect: nat, xnfsect: nat, xflags: nat)

  /** A difference in 32 unsigned bits. */
  function Sub32(a: nat, b: nat): nat {
    (a - b) % 0x1_0000_0000
  }

  /** `cdiv`. */
  function Ceiling(a: nat, b: nat): nat
    requires b > 0
  {
    (a + b - 1) / b
  }

  /** What a rounded-up quotient is. */
  lemma CeilingIs(a: nat, b: nat)
    requires b > 0
    ensures Ceiling(a, b) * b >= a && Ceiling(a, b) * b < a + b
  {
    var q := (a + b - 1) / b;
    assert a + b - 1 == q * b + (a + b - 1) % b;
  }

  /** Sectors of the FAT of a FAT12 volume with `fatdata` sectors for FATs and data. */
  function FatLength12(fatdata: nat): nat {
    Ceiling((fatdata + 16) * 3, 8198)
  }

  /** What one sector of a FAT and its entries' clusters take; `per` is the number of entries in a sector. */
  function Divisor(per: nat, ns: nat): nat {
    per * ns + 2
  }

  /** Sectors of the FAT for clusters of `ns` sectors. */
  function FatLength(fatdata: nat, per: nat, ns: nat): nat {
    var divisor := Divisor(per, ns);
    fatdata / divisor + (2 * ns + divisor + fatdata % divisor - 1) / divisor
  }

  function ClusterCount(fatdata: nat, per: nat, ns: nat): nat
    requires ns > 0
  {
    Sub32(fatdata, 2 * FatLength(fatdata, per, ns)) / ns
  }

  /** The most clusters, with the two reserved entries, that the FAT and its type allow. */
  function MaxClusters(fatdata: nat, per: nat, ns: nat, maxcl: nat): nat {
    var n := FatLength(fatdata, per, ns) * per;
    if n > maxcl then maxcl else n
  }

  /** The cluster size is accepted: not too many clusters, and enough not to be taken for FAT12. */
  predicate Accepted(fatdata: nat, per: nat, ns: nat, maxcl: nat)
    requires ns > 0
  {
    var clust := ClusterCount(fatdata, per, ns);
    clust <= Sub32(MaxClusters(fatdata, per, ns, maxcl), 2) && clust > FAT_MAGIC
  }

  /** The next cluster size, in 8 bits. */
  function NextSize(ns: nat): (r: nat)
    requires 0 < ns <= MAXCLUSTSIZE
    ensures r == if ns == MAXCLUSTSIZE then 0 else 2 * ns
  {
    2 * ns % 256
  }

  /** The first cluster size from `ns` on, each twice the one before, that is accepted; 0 if none is. */
  function ClusterSizeFrom(fatdata: nat, per: nat, ns: nat, maxcl: nat): nat
    requires 0 < ns <= MAXCLUSTSIZE
    decreases 256 - ns
  {
    var next := NextSize(ns);
    if Accepted(fatdata, per, ns, maxcl) then ns
    else if next != 0 && next <= MAXCLUSTSIZE then ClusterSizeFrom(fatdata, per, next, maxcl)
    else next
  }

  /** Where the search for a cluster size starts on a FAT32 volume. */
  function FirstSize32(num: nat): (ns: nat)
    ensures ns in {1, 8, 16, 32, 64}
  {
    var gb := num / 2097152;
    if num <= 532480 then 1 else if gb <= 8 then 8 else if gb <= 16 then 16 else if gb <= 32 then 32 else 64
  }

  function SmallSize(num: nat): nat {
    if num <= 0xFFFF then num else 0
  }

  function LargeSize(num: nat): nat {
    if num <= 0xFFFF then 0 else num
  }

  /** Sectors for FATs and data of a FAT16 volume, as many as can be used. */
  function FatData16(num: nat): nat {
    if Sub32(num, 33) > 8386688 then 8386688 else Sub32(num, 33)
  }

  /** The last cluster size that was tried. */
  function LastTried(ns: nat): nat {
    if ns == 0 then MAXCLUSTSIZE else ns
  }

  /** The layout that `CalculateFATData` gives a partition of `num` sectors. */
  function Layout(num: nat, kind: Kind): Bpb {
    match kind
    case Fat12 =>
      var fatdata := if Sub32(num, 33) > 32640 then 32640 else Sub32(num, 33);
      Bpb(512, 8, 1, 2, 512, SmallSize(num), LargeSize(num), FatLength12(fatdata), 0, 0)
    case Fat16 =>
      var ns := ClusterSizeFrom(FatData16(num), 256, 4, FAT16MAX);
      Bpb(512, ns, 1, 2, 512, SmallSize(num), LargeSize(num),
          FatLength(FatData16(num), 256, LastTried(ns)) % 0x1_0000, 0, 0)
    case Fat32 =>
      var ns := ClusterSizeFrom(Sub32(num, 32), 128, FirstSize32(num), FAT32MAX);
      Bpb(512, ns, 32, 2, 0, SmallSize(num), LargeSize(num), 0, FatLength(Sub32(num, 32), 128, LastTried(ns)), 0)
  }

  /** `CalculateFATData`. */
  method CalculateFatData(num: nat, kind: Kind) returns (b: Bpb)
    requires num < 0x1_0000_0000
    ensures b == Layout(num, kind)
  {
    hide *;
    LayoutIs(num);
    Limits();
    PowerFour();
    var fatdata := Sub32(num, 33);
    if kind == Fat12 {
      if fatdata > 32640 {
        fatdata := 32640;
      }
      return Bpb(512, 8, 1, 2, 512, SmallSize(num), LargeSize(num), FatLength12(fatdata), 0, 0);
    }
    var per, maxcl, ns := 256, FAT16MAX, 4;
    if kind == Fat32 {
      per, maxcl, ns := 128, FAT32MAX, FirstSize32(num);
      fatdata := Sub32(num, 32);
    } else if fatdata > 8386688 {
      fatdata := 8386688;
    }
    ghost var answer := ClusterSizeFrom(fatdata, per, ns, maxcl);
    var fatlength := FatLength(fatdata, per, ns);
    while !Accepted(fatdata, per, ns, maxcl)
      invariant 0 < ns <= 128 && answer == ClusterSizeFrom(fatdata, per, ns, maxcl) && PowerUpTo256(ns)
      invariant fatlength == FatLength(fatdata, per, ns)
      decreases 256 - ns
    {
      SizeStep(fatdata, per, ns, maxcl);
      if !(NextSize(ns) != 0 && NextSize(ns) <= MAXCLUSTSIZE) {
        break;
      }
      ns := 2 * ns;
      fatlength := FatLength(fatdata, per, ns);
    }
    SizeStep(fatdata, per, ns, maxcl);
    ns := if Accepted(fatdata, per, ns, maxcl) then ns else NextSize(ns);
    b := if kind == Fat32 then Bpb(512, ns, 32, 2, 0, SmallSize(num), LargeSize(num), 0, fatlength, 0)
         else Bpb(512, ns, 1, 2, 512, SmallSize(num), LargeSize(num), fatlength % 0x1_0000, 0, 0);
  }

  /** One turn of the loop that doubles the cluster size. */
  lemma SizeStep(fatdata: nat, per: nat, ns: nat, maxcl: nat)
    requires PowerUpTo256(ns) && ns <= 128
    ensures var r := ClusterSizeFrom(fatdata, per, ns, maxcl);
            if Accepted(fatdata, per, ns, maxcl) then r == ns && LastTried(r) == ns
            else if ns < 128 then NextSize(ns) == 2 * ns <= 128 && PowerUpTo256(2 * ns)
                                   && r == ClusterSizeFrom(fatdata, per, 2 * ns, maxcl)
            else ns == 128 && NextSize(ns) == 0 && r == 0 && LastTried(r) == ns
  {
    hide Accepted, PowerUpTo256;
    Doubled(ns);
  }

  lemma Doubled(ns: nat)
    requires PowerUpTo256(ns) && ns <= 128
    ensures ns > 0 && (if ns < 128 then 2 * ns <= 128 && PowerUpTo256(2 * ns) else ns == 128)
  {
  }

  lemma LayoutIs(num: nat)
    ensures Layout(num, Fat12) ==
            (var fatdata := if Sub32(num, 33) > 32640 then 32640 else Sub32(num, 33);
             Bpb(512, 8, 1, 2, 512, SmallSize(num), LargeSize(num), FatLength12(fatdata), 0, 0))
    ensures var fatdata := if Sub32(num, 33) > 8386688 then 8386688 else Sub32(num, 33);
            var ns := ClusterSizeFrom(fatdata, 256, 4, FAT16MAX);
            Layout(num, Fat16) == Bpb(512, ns, 1, 2, 512, SmallSize(num), LargeSize(num),
                                  FatLength(fatdata, 256, LastTried(ns)) % 0x1_0000, 0, 0)
    ensures var ns := ClusterSizeFrom(Sub32(num, 32), 128, FirstSize32(num), FAT32MAX);
            Layout(num, Fat32) ==
            Bpb(512, ns, 32, 2, 0, SmallSize(num), LargeSize(num), 0, FatLength(Sub32(num, 32), 128, LastTried(ns)), 0)
  {
  }

  /** `shftcnt`: how often the cluster size can be halved. */
  function ShiftCount(n: nat): nat {
    if n <= 1 then 0 else 1 + ShiftCount(n / 2)
  }

  function Pow2(n: nat): (r: nat)
    ensures r > 0
  {
    if n == 0 then 1 else 2 * Pow2(n - 1)
  }

  /** The size in sectors. */
  function SizeOf(b: Bpb): nat {
    if b.nsize == 0 then b.huge else b.nsize
  }

  /** `dpb_size` before it is checked against the length of the FAT. */
  function RawSize(b: Bpb, data: nat, shift: nat): nat {
    (Sub32(SizeOf(b), data) / Pow2(shift) % 0x1_0000 + 1) % 0x1_0000
  }

  /** The number of clusters is cut down when the FAT is too short for them. */
  function Clamped(size: nat, fatsize: nat, secsize: nat): nat {
    var half := fatsize * (secsize / 2);
    if half >= 0x1_0000 then size
    else if size > FAT_MAGIC then (if half <= FAT_MAGIC || size < half then size else (half - 1) % 0x1_0000)
    else if half >= 0x4000 || size < half * 4 / 3 then size
    else (half * 4 / 3 - 1) % 0x1_0000
  }

  function DirSectors(b: Bpb): nat
    requires b.nbyte >= 32
  {
    Ceiling(b.ndirent, b.nbyte / DIRENT_SIZE)
  }

  /** `dpb_data`: the first sector behind the root directory. */
  function DataSector(b: Bpb): nat
    requires b.nbyte >= 32
  {
    (b.nreserved + b.nfat * b.nfsect % 0x1_0000 + DirSectors(b)) % 0x1_0000
  }

  function Quotient(n: nat, d: nat): nat
    requires d > 0
  {
    n / d
  }

  /** Number of the last cluster of a FAT32 volume. */
  function LargeCount(b: Bpb, xdata: nat, shift: nat): nat {
    Quotient(Sub32(SizeOf(b), xdata), Pow2(shift)) + 1
  }

  /** The cluster size as it is kept: one less, in 8 bits. */
  function FromMask(nsector: nat): (r: nat)
    ensures 0 < r <= 256
  {
    (nsector - 1) % 256 + 1
  }

  /** FAT_NO_MIRRORING */
  predicate OneFat(b: Bpb) {
    b.xflags / 0x80 % 2 == 1
  }

  function ShiftOf(nsector: nat): nat {
    if nsector == 0 then 8 else ShiftCount(nsector)
  }

  /** `bpb_to_dpb`, for a `struct dpb` with the FAT32 fields. */
  function DpbOf(b: Bpb, unit: int): Dpb
    requires b.nbyte >= 32
  {
    var shift, data := ShiftOf(b.nsector), DataSector(b);
    var xfat := if b.nfsect == 0 then b.xnfsect else b.nfsect;
    var xdata := b.nreserved + b.nfat * xfat;
    var size := Clamped(RawSize(b, data, shift), b.nfsect, b.nbyte);
    if b.nfsect == 0
    then Dpb(unit, b.nbyte, FromMask(b.nsector), b.nreserved, b.nfat, 0, 0, data, OneFat(b), b.xflags % 16,
             LargeCount(b, xdata, shift), xfat, xdata)
    else Dpb(unit, b.nbyte, FromMask(b.nsector), b.nreserved, b.nfat, size, b.nfsect, data, false, 0, size, xfat, data)
  }

  /** The loop of `bpb_to_dpb` that finds the shift count. */
  method ShiftFor(nsector: nat) returns (shift: nat)
    ensures shift == ShiftOf(nsector)
  {
    if nsector == 0 {
      return 8;
    }
    shift := 0;
    while nsector / Pow2(shift) > 1
      invariant nsector / Pow2(shift) >= 1 && shift + ShiftCount(nsector / Pow2(shift)) == ShiftCount(nsector)
      decreases nsector / Pow2(shift)
    {
      HalfAgain(nsector, Pow2(shift));
      shift := shift + 1;
    }
  }

  /** `bpb_to_dpb`: the cluster size becomes a mask and a shift count, and the number of clusters what fits behind
      the root directory, or for FAT32 behind the FATs, and no more than the FAT is long enough for. */
  method BpbToDpb(b: Bpb, unit: int) returns (d: Dpb)
    requires b.nbyte >= 32
    ensures d == DpbOf(b, unit)
  {
    hide *;
    PartsOfDpb(b, unit);
    DataSectorIs(b);
    var shift := ShiftFor(b.nsector);
    var fatsize := b.nfsect;
    var dirstrt := b.nreserved + b.nfat * fatsize % 0x1_0000;
    var data := (dirstrt + DirSectors(b)) % 0x1_0000;
    var size := Clamped(RawSize(b, data, shift), fatsize, b.nbyte);
    var xfatsize := if b.nfsect == 0 then b.xnfsect else b.nfsect;
    var xdata, xsize, oneFat, active := data, size, false, 0;
    if fatsize == 0 {
      size, oneFat, active := 0, OneFat(b), b.xflags % 16;
      xdata := b.nreserved + b.nfat * xfatsize;
      xsize := LargeCount(b, xdata, shift);
    }
    d := Dpb(unit, b.nbyte, FromMask(b.nsector), b.nreserved, b.nfat, size, fatsize, data, oneFat, active,
             xsize, xfatsize, xdata);
  }

  lemma DataSectorIs(b: Bpb)
    requires b.nbyte >= 32
    ensures DataSector(b) == (b.nreserved + b.nfat * b.nfsect % 0x1_0000 + DirSectors(b)) % 0x1_0000
  {
  }

  lemma PartsOfDpb(b: Bpb, unit: int)
    requires b.nbyte >= 32
    ensures var shift, data := ShiftOf(b.nsector), DataSector(b);
            var xfat := if b.nfsect == 0 then b.xnfsect else b.nfsect;
            var xdata := b.nreserved + b.nfat * xfat;
            var size := Clamped(RawSize(b, data, shift), b.nfsect, b.nbyte);
            var large := Dpb(unit, b.nbyte, FromMask(b.nsector), b.nreserved, b.nfat, 0, 0, data, OneFat(b),
                             b.xflags % 16, LargeCount(b, xdata, shift), xfat, xdata);
            var small := Dpb(unit, b.nbyte, FromMask(b.nsector), b.nreserved, b.nfat, size, b.nfsect, data, false, 0,
                             size, xfat, data);
            DpbOf(b, unit) == if b.nfsect == 0 then large else small
  {
    hide Clamped, RawSize, LargeCount, ShiftOf, FromMask, DirSectors;
  }

  /** The number of the last cluster is the largest up to `size` whose entry is in the FAT; only a FAT16 volume with a
      FAT too short even for FAT12 is let through. */
  lemma ClampedIsLargest(size: nat, fatsize: nat, secsize: nat)
    requires size < 0x1_0000 && fatsize > 0 && secsize > 0 && secsize % 2 == 0
    ensures var n, c := fatsize * secsize, Clamped(size, fatsize, secsize);
            if size <= 4085
            then c <= size && 3 * c / 2 + 2 <= n && (c < size ==> 3 * (c + 1) / 2 + 2 > n)
            else if n <= 2 * 4085 then c == size && 2 * c + 2 > n
            else c <= size && 2 * c + 2 <= n && (c < size ==> 2 * (c + 1) + 2 > n)
  {
    hide Clamped;
    var half := fatsize * (secsize / 2);
    assert fatsize * secsize == 2 * half && half > 0 by {
      Reassociate(fatsize, secsize / 2, 2);
      MulMono(1, fatsize, secsize / 2);
    }
    CutDown(size, half, fatsize, secsize);
  }

  lemma CutDown(size: nat, half: nat, fatsize: nat, secsize: nat)
    requires size < 0x1_0000 && half == fatsize * (secsize / 2) && half > 0
    ensures var n, c := 2 * half, Clamped(size, fatsize, secsize);
            if size <= 4085
            then c <= size && 3 * c / 2 + 2 <= n && (c < size ==> 3 * (c + 1) / 2 + 2 > n)
            else if n <= 2 * 4085 then c == size && 2 * c + 2 > n
            else c <= size && 2 * c + 2 <= n && (c < size ==> 2 * (c + 1) + 2 > n)
  {
    ClampedIs(size, fatsize, secsize);
    hide *;
    if size <= 4085 {
      Short12(size, half);
    } else {
      Short16(size, half);
    }
  }

  lemma Short16(size: nat, half: nat)
    requires 4085 < size < 0x1_0000 && half > 0
    ensures var c := if half >= 0x1_0000 || half <= 4085 || size < half then size else (half - 1) % 0x1_0000;
            if half <= 4085 then c == size && c >= half
            else c <= size && c + 1 <= half && (c < size ==> c + 2 > half)
  {
    if 4085 < half <= size {
      DivModUnique(half - 1, 0x1_0000, 0, half - 1);
    }
  }

  lemma Short12(size: nat, half: nat)
    requires size <= 4085 && half > 0
    ensures var c := if half >= 0x4000 || size < half * 4 / 3 then size else (half * 4 / 3 - 1) % 0x1_0000;
            c <= size && 3 * c / 2 + 2 <= 2 * half && (c < size ==> 3 * (c + 1) / 2 + 2 > 2 * half)
  {
    var t := half * 4 / 3;
    Thirds(half);
    if size < t {
      MoreThirds(half, size);
    } else if half < 0x4000 {
      DivModUnique(t - 1, 0x1_0000, 0, t - 1);
    }
  }

  lemma ClampedIs(size: nat, fatsize: nat, secsize: nat)
    ensures var half := fatsize * (secsize / 2);
            Clamped(size, fatsize, secsize) ==
            if half >= 0x1_0000 then size
            else if size > 4085 then (if half <= 4085 || size < half then size else (half - 1) % 0x1_0000)
            else if half >= 0x4000 || size < half * 4 / 3 then size
            else (half * 4 / 3 - 1) % 0x1_0000
  {
  }

  lemma Thirds(half: nat)
    requires half > 0
    ensures var t := half * 4 / 3; t > 0 && 3 * (t - 1) / 2 + 2 <= 2 * half < 3 * t / 2 + 2
  {
  }

  lemma MoreThirds(half: nat, c: nat)
    requires c < half * 4 / 3
    ensures 3 * c / 2 + 2 <= 2 * half
  {
  }

  /** What `bpb_to_dpb` makes of a block from which nothing overflows, in numbers. */
  lemma DpbNumbers(b: Bpb, unit: int)
    requires b.nbyte >= 32 && b.nbyte % 2 == 0 && b.nsector in {0, 1, 2, 4, 8, 16, 32, 64, 128}
    requires var total := if b.nsize == 0 then b.huge else b.nsize;
             total < 0x1_0000_0000
             && if b.nfsect == 0 then b.nreserved + b.nfat * b.xnfsect <= total
                else b.nreserved + b.nfat * b.nfsect + (b.ndirent + b.nbyte / 32 - 1) / (b.nbyte / 32)
                     <= (if total < 0xFFFF then total else 0xFFFF)
    ensures var d, spc := DpbOf(b, unit), if b.nsector == 0 then 256 else b.nsector;
            var total := if b.nsize == 0 then b.huge else b.nsize;
            && d.unit == unit && d.secsize == b.nbyte && d.spc == spc && d.fatstrt == b.nreserved && d.fats == b.nfat
            && d.fatsize == b.nfsect
            && if b.nfsect == 0 then
                 && d.size == 0 && d.xfatsize == b.xnfsect && d.xdata == b.nreserved + b.nfat * b.xnfsect
                 && d.xsize == (total - d.xdata) / spc + 1
                 && (d.noMirroring <==> b.xflags / 128 % 2 == 1) && d.active == b.xflags % 16
               else
                 && d.data == b.nreserved + b.nfat * b.nfsect + (b.ndirent + b.nbyte / 32 - 1) / (b.nbyte / 32)
                 && ((total - d.data) / spc + 1 < 0x1_0000 ==>
                       var n, most := b.nfsect * b.nbyte, (total - d.data) / spc + 1;
                       if most <= 4085
                       then d.size <= most && 3 * d.size / 2 + 2 <= n
                            && (d.size < most ==> 3 * (d.size + 1) / 2 + 2 > n)
                       else if n <= 2 * 4085 then d.size == most
                       else d.size <= most && 2 * d.size + 2 <= n && (d.size < most ==> 2 * (d.size + 1) + 2 > n))
  {
    hide *;
    PartsOfDpb(b, unit);
    SpcOf(b.nsector);
    var shift, total := ShiftOf(b.nsector), SizeOf(b);
    TotalIs(b);
    OneFatIs(b);
    if b.nfsect == 0 {
      Large(b, b.nreserved + b.nfat * b.xnfsect, shift);
    } else {
      DataIs(b);
      var data := DataSector(b);
      Raw(b, data, shift);
      if Quotient(total - data, Pow2(shift)) + 1 < 0x1_0000 {
        ClampedIsLargest(RawSize(b, data, shift), b.nfsect, b.nbyte);
      }
      QuotientIs(total - data, Pow2(shift));
    }
  }

  lemma SpcOf(nsector: nat)
    requires nsector in {0, 1, 2, 4, 8, 16, 32, 64, 128}
    ensures FromMask(nsector) == Pow2(ShiftOf(nsector)) == if nsector == 0 then 256 else nsector
  {
    if nsector == 0 {
      assert Pow2(8) == 2 * (2 * (2 * (2 * Pow2(4))));
    } else {
      PowersUpTo(nsector);
      ShiftDivides(nsector);
      PowerParts(nsector);
    }
  }

  lemma PowersUpTo(n: nat)
    requires n in {1, 2, 4, 8, 16, 32, 64, 128}
    ensures PowerUpTo256(n)
  {
  }

  lemma TotalIs(b: Bpb)
    ensures SizeOf(b) == if b.nsize == 0 then b.huge else b.nsize
  {
  }

  lemma OneFatIs(b: Bpb)
    ensures OneFat(b) <==> b.xflags / 128 % 2 == 1
  {
  }

  lemma QuotientIs(n: nat, d: nat)
    requires d > 0
    ensures Quotient(n, d) == n / d
  {
  }

  lemma Large(b: Bpb, xdata: nat, shift: nat)
    requires xdata <= SizeOf(b) < 0x1_0000_0000
    ensures LargeCount(b, xdata, shift) == (SizeOf(b) - xdata) / Pow2(shift) + 1
  {
    Small32(SizeOf(b), xdata);
  }

  lemma DataIs(b: Bpb)
    requires b.nbyte >= 32
    requires b.nreserved + b.nfat * b.nfsect + (b.ndirent + b.nbyte / 32 - 1) / (b.nbyte / 32) <= 0xFFFF
    ensures DataSector(b) == b.nreserved + b.nfat * b.nfsect + (b.ndirent + b.nbyte / 32 - 1) / (b.nbyte / 32)
  {
    MulMono(0, b.nfat, b.nfsect);
  }

  lemma Raw(b: Bpb, data: nat, shift: nat)
    requires data <= SizeOf(b) < 0x1_0000_0000
    ensures Quotient(SizeOf(b) - data, Pow2(shift)) + 1 < 0x1_0000 ==>
              RawSize(b, data, shift) == Quotient(SizeOf(b) - data, Pow2(shift)) + 1
  {
    Small32(SizeOf(b), data);
  }

  lemma HalfAgain(n: nat, p: nat)
    requires p > 0
    ensures n / (2 * p) == n / p / 2
  {
    var q := n / p;
    IntParts(n, p);
    IntParts(q, 2);
    HalfParts(q / 2, q % 2, p, n % p);
    DivModUnique(n, 2 * p, q / 2, q % 2 * p + n % p);
  }

  lemma HalfParts(h: nat, e: nat, p: nat, r: nat)
    requires e < 2 && r < p
    ensures (h * 2 + e) * p + r == h * (2 * p) + (e * p + r)
    ensures 0 <= e * p + r < 2 * p
  {
    Distribute(h * 2, e, p);
    Reassociate(h, 2, p);
  }

  /** For a power of two, shifting is dividing. */
  lemma ShiftDivides(n: nat)
    requires PowerUpTo256(n)
    ensures Pow2(ShiftCount(n)) == n
  {
    hide PowerUpTo256;
    Halved(n);
    if n > 1 {
      ShiftDivides(n / 2);
    }
  }

  lemma Halved(n: nat)
    requires PowerUpTo256(n)
    ensures n > 0 && (n > 1 ==> n / 2 * 2 == n && PowerUpTo256(n / 2))
  {
  }

  // The FAT has room for the clusters.

  lemma FatLengthBounds(fatdata: nat, per: nat, ns: nat)
    ensures var fl, divisor := FatLength(fatdata, per, ns), Divisor(per, ns);
            fatdata + 2 * ns <= fl * divisor < fatdata + 2 * ns + divisor
  {
    var divisor := Divisor(per, ns);
    var q, r := fatdata / divisor, fatdata % divisor;
    assert fatdata == q * divisor + r;
    CeilingIs(2 * ns + r, divisor);
    Distribute(q, Ceiling(2 * ns + r, divisor), divisor);
  }

  /** The length that `CalculateFATData` gives a FAT is enough for all clusters and the two reserved entries,
      whatever the cluster size. */
  lemma FatLengthEnough(fatdata: nat, per: nat, ns: nat)
    requires ns > 0 && fatdata < 0x1_0000_0000 && fatdata >= 2 * FatLength(fatdata, per, ns)
    ensures ClusterCount(fatdata, per, ns) + 2 <= FatLength(fatdata, per, ns) * per
  {
    var fl, clust := FatLength(fatdata, per, ns), ClusterCount(fatdata, per, ns);
    FatLengthBounds(fatdata, per, ns);
    assert Sub32(fatdata, 2 * fl) == fatdata - 2 * fl;
    Enough(fatdata, per, ns, fl, clust);
  }

  lemma Enough(fatdata: nat, per: nat, ns: nat, fl: nat, clust: nat)
    requires ns > 0 && fatdata >= 2 * fl && clust == (fatdata - 2 * fl) / ns && fl * (per * ns + 2) >= fatdata + 2 * ns
    ensures clust + 2 <= fl * per
  {
    var rest := fatdata - 2 * fl;
    assert rest == clust * ns + rest % ns;
    Reassociate(fl, per, ns);
    Distribute(clust, 2, ns);
    assert fl * (per * ns + 2) == fl * (per * ns) + 2 * fl by { Spread(fl, per * ns); }
    if fl * per < clust + 2 {
      MulMono(fl * per + 1, clust + 2, ns);
      MulStep(fl * per, ns);
    }
  }

  lemma Spread(a: int, b: int)
    ensures a * (b + 2) == a * b + 2 * a
  {
  }

  /** A cluster size found is one that is accepted, and a power of two. */
  lemma {:induction false} SizeFound(fatdata: nat, per: nat, ns: nat, maxcl: nat)
    requires PowerUpTo256(ns) && ns <= MAXCLUSTSIZE
    ensures var r := ClusterSizeFrom(fatdata, per, ns, maxcl);
            r != 0 ==> PowerUpTo256(r) && r <= MAXCLUSTSIZE && ns <= r && Accepted(fatdata, per, r, maxcl)
    decreases 256 - ns
  {
    if !Accepted(fatdata, per, ns, maxcl) && NextSize(ns) != 0 && NextSize(ns) <= MAXCLUSTSIZE {
      SizeFound(fatdata, per, 2 * ns, maxcl);
    }
  }

  // The layout is read back as it was made.

  /** The volume is of the kind it was laid out for, with one cluster for every `nsector` sectors that are left, none
      cut off, a FAT with an entry for each, and all of it inside the partition. */
  ghost predicate Recovers(num: nat, b: Bpb, d: Dpb, kind: Kind) {
    && d.Valid() && d.Kind() == kind && d.spc == b.nsector && d.secsize == 512
    && d.DataStart() <= num && d.MaxCluster() == (num - d.DataStart()) / d.spc + 1
  }

  lemma SizeIs(num: nat, b: Bpb)
    requires b.nsize == SmallSize(num) && b.huge == LargeSize(num)
    ensures SizeOf(b) == num
  {
  }

  lemma Small32(a: nat, b: nat)
    requires b <= a < 0x1_0000_0000
    ensures Sub32(a, b) == a - b
  {
  }

  lemma PowerParts(n: nat)
    requires PowerUpTo256(n)
    ensures 1 <= n <= 256 && (n - 1) % 256 + 1 == n
  {
  }

  /** A FAT16 volume's FAT is short enough for its length to fit 16 bits. */
  lemma FatLength16Bound(fatdata: nat, ns: nat, fl: nat, clust: nat)
    requires ns > 0 && fatdata >= 2 * fl && clust == (fatdata - 2 * fl) / ns && clust <= 65517
    requires fl * (256 * ns + 2) < fatdata + 2 * ns + (256 * ns + 2)
    ensures fl <= 257
  {
    assert fatdata - 2 * fl == clust * ns + (fatdata - 2 * fl) % ns;
    MulMono(clust, 65517, ns);
    Spread(fl, 256 * ns);
    Reassociate(fl, 256, ns);
    if fl >= 258 {
      MulMono(258 * 256, fl * 256, ns);
    }
  }

  lemma Layout16(num: nat)
    requires 33 <= num <= 8386721 && ClusterSizeFrom(num - 33, 256, 4, FAT16MAX) != 0
    requires num - 33 >= 2 * FatLength(num - 33, 256, ClusterSizeFrom(num - 33, 256, 4, FAT16MAX))
    ensures var ns := ClusterSizeFrom(num - 33, 256, 4, FAT16MAX);
            var fl := FatLength(num - 33, 256, ns);
            var clust := (num - 33 - 2 * fl) / ns;
            && PowerUpTo256(ns) && 4085 < clust <= 65517 && clust + 2 <= fl * 256 && 0 < fl <= 257
            && Layout(num, Fat16) == Bpb(512, ns, 1, 2, 512, SmallSize(num), LargeSize(num), fl, 0, 0)
  {
    hide *;
    Limits();
    var ns := ClusterSizeFrom(num - 33, 256, 4, 65519);
    Is16(num, ns);
    PowerFour();
    SizeFound(num - 33, 256, 4, 65519);
    PowerParts(ns);
    var fl := FatLength(num - 33, 256, ns);
    AcceptedParts(num - 33, 256, ns, 65519, fl);
    FatLength16Bound(num - 33, ns, fl, (num - 33 - 2 * fl) / ns);
  }

  lemma Positive(a: nat, b: nat)
    requires a * b > 0
    ensures a > 0
  {
  }

  lemma PowerFour()
    ensures PowerUpTo256(4) && PowerUpTo256(1) && PowerUpTo256(8) && PowerUpTo256(16) && PowerUpTo256(32)
    ensures PowerUpTo256(64)
  {
  }

  lemma Is16(num: nat, ns: nat)
    requires 33 <= num <= 8386721 && ns == ClusterSizeFrom(num - 33, 256, 4, FAT16MAX) && ns != 0
    ensures Layout(num, Fat16) ==
            Bpb(512, ns, 1, 2, 512, SmallSize(num), LargeSize(num), FatLength(num - 33, 256, ns) % 0x1_0000, 0, 0)
  {
    Small32(num, 33);
  }

  /** What acceptance means when nothing underflows. */
  lemma AcceptedParts(fatdata: nat, per: nat, ns: nat, maxcl: nat, fl: nat)
    requires ns > 0 && per >= 2 && 2 <= maxcl < 0x1_0000_0000 && fl == FatLength(fatdata, per, ns)
    requires 2 * fl <= fatdata < 0x1_0000_0000
    requires Accepted(fatdata, per, ns, maxcl)
    ensures var clust := (fatdata - 2 * fl) / ns;
            4085 < clust <= maxcl - 2 && clust + 2 <= fl * per && fl > 0
    ensures fl * (per * ns + 2) < fatdata + 2 * ns + (per * ns + 2)
  {
    FatLengthEnough(fatdata, per, ns);
    FatLengthBounds(fatdata, per, ns);
    Small32(fatdata, 2 * fl);
    var most := MaxClusters(fatdata, per, ns, maxcl);
    Positive(fl, Divisor(per, ns));
    MulMono(1, fl, per);
    Small32(most, 2);
  }

  lemma Found16(num: nat, unit: int)
    requires 35 <= num <= 8386721 && ClusterSizeFrom(num - 33, 256, 4, FAT16MAX) != 0
    ensures Recovers(num, Layout(num, Fat16), DpbOf(Layout(num, Fat16), unit), Fat16)
  {
    hide *;
    Limits();
    PowerFour();
    var ns := ClusterSizeFrom(num - 33, 256, 4, 65519);
    SizeFound(num - 33, 256, 4, 65519);
    PowerParts(ns);
    NoUnderflow(num - 33, 256, ns);
    Layout16(num);
    var fl := FatLength(num - 33, 256, ns);
    Dpb16(num, ns, fl, (num - 33 - 2 * fl) / ns, Layout(num, Fat16), unit);
  }

  lemma Limits()
    ensures FAT16MAX == 65519 && FAT32MAX == 268435449 && MAXCLUSTSIZE == 128
  {
  }

  /** The `struct dpb` of a FAT12 or FAT16 layout. */
  lemma SmallDpb(num: nat, ns: nat, nf: nat, b: Bpb, unit: int)
    requires ns <= 128 && 0 < nf <= 257 && b == Bpb(512, ns, 1, 2, 512, SmallSize(num), LargeSize(num), nf, 0, 0)
    ensures var size := Clamped(RawSize(b, 33 + 2 * nf, ShiftOf(ns)), nf, 512);
            DpbOf(b, unit) == Dpb(unit, 512, FromMask(ns), 1, 2, size, nf, 33 + 2 * nf, false, 0, size, nf, 33 + 2 * nf)
  {
    SmallData(ns, nf, b);
    hide *;
    PartsOfDpb(b, unit);
  }

  lemma SmallData(ns: nat, nf: nat, b: Bpb)
    requires 0 < nf <= 257 && b.nbyte == 512 && b.nreserved == 1 && b.nfat == 2 && b.ndirent == 512 && b.nfsect == nf
    ensures DataSector(b) == 33 + 2 * nf
  {
    assert DirSectors(b) == 32;
  }

  lemma SmallCount(num: nat, ns: nat, nf: nat, clust: nat, b: Bpb)
    requires PowerUpTo256(ns) && 33 + 2 * nf <= num < 0x1_0000_0000 && clust == (num - 33 - 2 * nf) / ns
    requires clust < 0xFFFF
    requires b == Bpb(512, ns, 1, 2, 512, SmallSize(num), LargeSize(num), nf, 0, 0)
    ensures RawSize(b, 33 + 2 * nf, ShiftOf(ns)) == clust + 1 && FromMask(ns) == ns
  {
    hide PowerUpTo256, SmallSize, LargeSize, SizeOf, Sub32, Pow2, ShiftCount;
    SizeIs(num, b);
    ShiftDivides(ns);
    PowerParts(ns);
    Small32(num, 33 + 2 * nf);
  }

  /** A FAT long enough for all clusters cuts none off. */
  lemma Unclamped(clust: nat, nf: nat)
    requires (4085 < clust <= 65524 && clust + 2 <= nf * 256 && nf <= 257)
             || (clust <= 4084 && 3 * (clust + 2) <= 1024 * nf && nf <= 12)
    ensures Clamped(clust + 1, nf, 512) == clust + 1
  {
  }

  /** A layout whose FAT cuts nothing off comes back. */
  lemma Comes(num: nat, ns: nat, nf: nat, clust: nat, d: Dpb, kind: Kind)
    requires PowerUpTo256(ns) && 33 + 2 * nf <= num && clust == (num - 33 - 2 * nf) / ns && 0 < nf <= 257
    requires (kind == Fat16 && 4085 < clust <= 65524 && clust + 2 <= nf * 256)
             || (kind == Fat12 && clust <= 4084 && 3 * (clust + 2) <= 1024 * nf)
    requires d == Dpb(d.unit, 512, ns, 1, 2, clust + 1, nf, 33 + 2 * nf, false, 0, clust + 1, nf, 33 + 2 * nf)
    ensures Recovers(num, Bpb(512, ns, 1, 2, 512, SmallSize(num), LargeSize(num), nf, 0, 0), d, kind)
  {
    PowerParts(ns);
    hide PowerUpTo256, SmallSize, LargeSize;
  }

  lemma Dpb16(num: nat, ns: nat, fl: nat, clust: nat, b: Bpb, unit: int)
    requires PowerUpTo256(ns) && ns <= 128 && 4085 < clust <= 65524 && clust + 2 <= fl * 256 && 0 < fl <= 257
    requires num < 0x1_0000_0000 && num >= 33 + 2 * fl && clust == (num - 33 - 2 * fl) / ns
    requires b == Bpb(512, ns, 1, 2, 512, SmallSize(num), LargeSize(num), fl, 0, 0)
    ensures Recovers(num, b, DpbOf(b, unit), Fat16)
  {
    hide *;
    SmallDpb(num, ns, fl, b, unit);
    SmallCount(num, ns, fl, clust, b);
    Unclamped(clust, fl);
    Comes(num, ns, fl, clust, DpbOf(b, unit), Fat16);
  }

  /** A FAT32 volume has far fewer clusters than entries can number. */
  lemma ClustersBelow(num: nat, start: nat, ns: nat, clust: nat)
    requires num < 0x1_0000_0000 && start == FirstSize32(num) && start <= ns && clust * ns <= num
    ensures clust < 69206016
  {
    if ns >= 64 {
      MulMono(64, ns, clust);
    } else {
      MulMono(1, ns, clust);
      assert num < 33 * 2097152;
    }
  }

  lemma Layout32(num: nat)
    requires 32 <= num < 0x1_0000_0000 && ClusterSizeFrom(num - 32, 128, FirstSize32(num), FAT32MAX) != 0
    requires num - 32 >= 2 * FatLength(num - 32, 128, ClusterSizeFrom(num - 32, 128, FirstSize32(num), FAT32MAX))
    ensures var ns := ClusterSizeFrom(num - 32, 128, FirstSize32(num), FAT32MAX);
            var fl := FatLength(num - 32, 128, ns);
            var clust := (num - 32 - 2 * fl) / ns;
            && PowerUpTo256(ns) && 4085 < clust < 69206016 && clust + 2 <= fl * 128
            && Layout(num, Fat32) == Bpb(512, ns, 32, 2, 0, SmallSize(num), LargeSize(num), 0, fl, 0)
  {
    hide *;
    Limits();
    PowerFour();
    var ns := ClusterSizeFrom(num - 32, 128, FirstSize32(num), 268435449);
    Is32(num, ns);
    SizeFound(num - 32, 128, FirstSize32(num), 268435449);
    PowerParts(ns);
    var fl := FatLength(num - 32, 128, ns);
    AcceptedParts(num - 32, 128, ns, 268435449, fl);
    IntParts(num - 32 - 2 * fl, ns);
    ClustersBelow(num, FirstSize32(num), ns, (num - 32 - 2 * fl) / ns);
  }

  lemma Is32(num: nat, ns: nat)
    requires 32 <= num < 0x1_0000_0000 && ns == ClusterSizeFrom(num - 32, 128, FirstSize32(num), FAT32MAX) && ns != 0
    ensures Layout(num, Fat32) == Bpb(512, ns, 32, 2, 0, SmallSize(num), LargeSize(num), 0,
                                      FatLength(num - 32, 128, ns), 0)
  {
    Small32(num, 32);
  }

  lemma Found32(num: nat, unit: int)
    requires 34 <= num < 0x1_0000_0000 && ClusterSizeFrom(num - 32, 128, FirstSize32(num), FAT32MAX) != 0
    ensures Recovers(num, Layout(num, Fat32), DpbOf(Layout(num, Fat32), unit), Fat32)
  {
    hide *;
    Limits();
    PowerFour();
    var ns := ClusterSizeFrom(num - 32, 128, FirstSize32(num), 268435449);
    SizeFound(num - 32, 128, FirstSize32(num), 268435449);
    PowerParts(ns);
    NoUnderflow(num - 32, 128, ns);
    Layout32(num);
    var fl := FatLength(num - 32, 128, ns);
    Dpb32(num, ns, fl, (num - 32 - 2 * fl) / ns, Layout(num, Fat32), unit);
  }

  lemma Dpb32(num: nat, ns: nat, fl: nat, clust: nat, b: Bpb, unit: int)
    requires PowerUpTo256(ns) && 4085 < clust < 69206016 && clust + 2 <= fl * 128
    requires num < 0x1_0000_0000 && num >= 32 + 2 * fl && clust == (num - 32 - 2 * fl) / ns
    requires b == Bpb(512, ns, 32, 2, 0, SmallSize(num), LargeSize(num), 0, fl, 0)
    ensures Recovers(num, b, DpbOf(b, unit), Fat32)
  {
    SizeIs(num, b);
    ShiftDivides(ns);
    PowerParts(ns);
    Small32(num, 32 + 2 * fl);
  }

  lemma Length12(fatdata: nat)
    requires 2 <= fatdata <= 32640
    ensures var nf := FatLength12(fatdata);
            1 <= nf <= 12 && 2 * nf <= fatdata && 3 * ((fatdata - 2 * nf) / 8 + 2) <= 1024 * nf
    ensures FatLength12(32640) == 12
  {
    CeilingIs((fatdata + 16) * 3, 8198);
  }

  /** FAT12 partitions are laid out and read back right exactly from 35 to 32736 sectors: past the cap of 32640 sectors
      for FATs and data, the FAT still has room for a while, until there are too many clusters for FAT12. */
  lemma Geometry12(num: nat, unit: int)
    requires num < 0x1_0000_0000
    ensures Recovers(num, Layout(num, Fat12), DpbOf(Layout(num, Fat12), unit), Fat12) <==> 35 <= num <= 32736
  {
    var b := Layout(num, Fat12);
    var fatdata := if Sub32(num, 33) > 32640 then 32640 else Sub32(num, 33);
    var nf := FatLength12(fatdata);
    assert b == Bpb(512, 8, 1, 2, 512, SmallSize(num), LargeSize(num), nf, 0, 0);
    if num < 35 {
      TooSmall12(num, b, unit);
    } else {
      Small32(num, 33);
      Length12(fatdata);
      if num <= 32736 {
        Dpb12(num, nf, (num - 33 - 2 * nf) / 8, b, unit);
      } else {
        TooLarge12(num, b, unit);
      }
    }
  }

  lemma TooSmall12(num: nat, b: Bpb, unit: int)
    requires num < 35 && 0 < b.nfsect < 100
    requires b == Bpb(512, 8, 1, 2, 512, SmallSize(num), LargeSize(num), b.nfsect, 0, 0)
    ensures !Recovers(num, b, DpbOf(b, unit), Fat12)
  {
    SmallDpb(num, 8, b.nfsect, b, unit);
    hide DpbOf, Clamped, RawSize, PowerUpTo256, FromMask, SmallSize, LargeSize;
  }

  lemma Dpb12(num: nat, nf: nat, clust: nat, b: Bpb, unit: int)
    requires 1 <= nf <= 12 && 33 + 2 * nf <= num <= 32736 && clust == (num - 33 - 2 * nf) / 8
    requires 3 * (clust + 2) <= 1024 * nf
    requires b == Bpb(512, 8, 1, 2, 512, SmallSize(num), LargeSize(num), nf, 0, 0) && clust <= 4084
    ensures Recovers(num, b, DpbOf(b, unit), Fat12)
  {
    hide *;
    PowerFour();
    SmallDpb(num, 8, nf, b, unit);
    SmallCount(num, 8, nf, clust, b);
    Unclamped(clust, nf);
    Comes(num, 8, nf, clust, DpbOf(b, unit), Fat12);
  }

  lemma TooLarge12(num: nat, b: Bpb, unit: int)
    requires 32736 < num < 0x1_0000_0000 && b == Bpb(512, 8, 1, 2, 512, SmallSize(num), LargeSize(num), 12, 0, 0)
    ensures !Recovers(num, b, DpbOf(b, unit), Fat12)
  {
    SmallDpb(num, 8, 12, b, unit);
    MaskOfEight();
    hide DpbOf, Clamped, RawSize, PowerUpTo256, FromMask, SmallSize, LargeSize;
  }

  lemma MaskOfEight()
    ensures FromMask(8) == 8 && FromMask(128) == 128
  {
  }

  // Which partitions a cluster size is found for.

  /** The FATs leave sectors over as soon as there are two for FATs and data. */
  lemma NoUnderflow(fatdata: nat, per: nat, ns: nat)
    requires per >= 128 && ns > 0
    ensures var fl := FatLength(fatdata, per, ns);
            fl > 0 && (fatdata >= 2 ==> 2 * fl <= fatdata) && (fatdata < 2 ==> fl == 1)
  {
    FatLengthBounds(fatdata, per, ns);
    TwoFats(fatdata, per, ns, FatLength(fatdata, per, ns));
  }

  lemma TwoFats(fatdata: nat, per: nat, ns: nat, fl: nat)
    requires per >= 128 && ns > 0 && fatdata + 2 * ns <= fl * (per * ns + 2) < fatdata + 2 * ns + (per * ns + 2)
    ensures fl > 0 && (fatdata >= 2 ==> 2 * fl <= fatdata) && (fatdata < 2 ==> fl == 1)
  {
    MulMono(128, per, ns);
    Positive(fl, per * ns + 2);
    if fl >= 2 {
      assert fl * (per * ns + 2) == (fl - 1) * (per * ns + 2) + (per * ns + 2) by { MulStep(fl - 1, per * ns + 2); }
      MulMono(130, per * ns + 2, fl - 1);
      Commute(fl - 1, per * ns + 2);
      Rest(fl, ns, per * ns, fatdata);
    }
  }

  lemma Rest(fl: nat, ns: nat, z: nat, fatdata: nat)
    requires fl >= 2 && ns > 0 && z >= 128 * ns && fatdata + 2 * ns > (fl - 1) * (z + 2)
    ensures 2 * fl <= fatdata
  {
    MulMono(128 * ns, z, fl - 1);
    Commute(fl - 1, z);
    Commute(fl - 1, 128 * ns);
    Spread(fl - 1, z);
    Reassociate(fl - 1, 128, ns);
    Commute(fl - 1, 128);
    Reassociate(128, fl - 1, ns);
    MulMono(1, ns, fl - 1);
    MulMono(1, fl - 1, ns);
    Commute(ns, fl - 1);
  }

  /** A cluster size is accepted just when it gives a number of clusters between the two limits. */
  lemma AcceptedWhen(fatdata: nat, per: nat, ns: nat, maxcl: nat, fl: nat)
    requires per in {128, 256} && 0 < ns <= 128 && 65519 <= maxcl < 0x1_0000_0000
    requires fatdata < 0x1_0000_0000 && fl == FatLength(fatdata, per, ns)
    ensures fatdata < 2 ==> !Accepted(fatdata, per, ns, maxcl)
    ensures fatdata >= 2 ==>
              (2 * fl <= fatdata
               && (Accepted(fatdata, per, ns, maxcl) <==> 4086 <= (fatdata - 2 * fl) / ns <= maxcl - 2))
  {
    NoUnderflow(fatdata, per, ns);
    var most := MaxClusters(fatdata, per, ns, maxcl);
    MulMono(1, fl, per);
    Small32(most, 2);
    if fatdata >= 2 {
      FatLengthEnough(fatdata, per, ns);
      Small32(fatdata, 2 * fl);
    } else {
      Wrapped(fatdata, ns);
    }
  }

  /** A FAT of `fl` sectors is the shortest with room for the entries of `fatdata` sectors, its copies taken off. */
  ghost predicate ShortestFat(fatdata: nat, per: nat, ns: nat, fl: nat) {
    fatdata + 2 * ns <= fl * (per * ns + 2) < fatdata + 2 * ns + (per * ns + 2)
  }

  /** With clusters of `ns` sectors and two such FATs there are enough clusters not to be taken for FAT12, and no more,
      with the two reserved entries, than `maxcl`. */
  ghost predicate Suits(fatdata: nat, per: nat, ns: nat, maxcl: nat, fl: nat)
    requires ns > 0
  {
    ShortestFat(fatdata, per, ns, fl) && 2 * fl <= fatdata && 4085 < (fatdata - 2 * fl) / ns <= maxcl - 2
  }

  lemma OneShortest(fatdata: nat, per: nat, ns: nat, fl: nat)
    requires ShortestFat(fatdata, per, ns, fl)
    ensures fl == FatLength(fatdata, per, ns)
  {
    var g, d := FatLength(fatdata, per, ns), per * ns + 2;
    FatLengthBounds(fatdata, per, ns);
    MulStep(fl, d);
    MulStep(g, d);
    if fl < g {
      MulMono(fl + 1, g, d);
    } else if g < fl {
      MulMono(g + 1, fl, d);
    }
  }

  lemma SuitsWhen(fatdata: nat, per: nat, ns: nat, maxcl: nat, fl: nat)
    requires per in {128, 256} && 0 < ns <= 128 && 65519 <= maxcl < 0x1_0000_0000 && 2 <= fatdata < 0x1_0000_0000
    ensures Suits(fatdata, per, ns, maxcl, fl) ==> Accepted(fatdata, per, ns, maxcl)
    ensures Accepted(fatdata, per, ns, maxcl) ==>
              Suits(fatdata, per, ns, maxcl, FatLength(fatdata, per, ns))
  {
    hide Accepted, FatLength;
    AcceptedWhen(fatdata, per, ns, maxcl, FatLength(fatdata, per, ns));
    FatLengthBounds(fatdata, per, ns);
    if ShortestFat(fatdata, per, ns, fl) {
      OneShortest(fatdata, per, ns, fl);
    }
  }

  /** The search finds the smallest size that suits, or there is none. */
  lemma {:induction false} LeastSize(fatdata: nat, per: nat, ns: nat, maxcl: nat)
    requires per in {128, 256} && PowerUpTo256(ns) && ns <= 128 && 65519 <= maxcl < 0x1_0000_0000
    requires 2 <= fatdata < 0x1_0000_0000
    ensures var r := ClusterSizeFrom(fatdata, per, ns, maxcl);
            && (r != 0 ==> r in {1, 2, 4, 8, 16, 32, 64, 128} && ns <= r
                           && Suits(fatdata, per, r, maxcl, FatLength(fatdata, per, r)))
            && forall s: nat, fl: nat :: s in {1, 2, 4, 8, 16, 32, 64, 128} && ns <= s && (r == 0 || s < r) ==>
                 !Suits(fatdata, per, s, maxcl, fl)
    decreases 256 - ns
  {
    hide ClusterSizeFrom, Accepted, FatLength, Suits;
    SizeStep(fatdata, per, ns, maxcl);
    forall fl: nat ensures Suits(fatdata, per, ns, maxcl, fl) ==> Accepted(fatdata, per, ns, maxcl) {
      SuitsWhen(fatdata, per, ns, maxcl, fl);
    }
    SuitsWhen(fatdata, per, ns, maxcl, 0);
    if !Accepted(fatdata, per, ns, maxcl) && ns < 128 {
      LeastSize(fatdata, per, 2 * ns, maxcl);
    }
  }

  /** The layout of a FAT16 or FAT32 volume in numbers: the smallest clusters that suit, from 4 sectors on or, for
      FAT32, from where the table of the specification has it, and the FAT for them. */
  lemma LayoutLeast(num: nat, kind: Kind)
    requires 35 <= num < 0x1_0000_0000 && kind != Fat12
    ensures var b := Layout(num, kind);
            && b.nbyte == 512 && b.nfat == 2 && b.xflags == 0
            && b.nsize == (if num < 0x1_0000 then num else 0) && b.nsize + b.huge == num
            && b.nreserved == (if kind == Fat32 then 32 else 1) && b.ndirent == (if kind == Fat32 then 0 else 512)
            && var data := if kind == Fat32 then num - 32 else if num > 8386721 then 8386688 else num - 33;
            && var per := if kind == Fat32 then 128 else 256;
            && var maxcl := if kind == Fat32 then 268435449 else 65519;
            && var first := if kind == Fat16 then 4
                            else if num <= 532480 then 1
                            else if num < 9 * 2097152 then 8
                            else if num < 17 * 2097152 then 16
                            else if num < 33 * 2097152 then 32
                            else 64;
            && (b.nsector != 0 ==>
                  && b.nsector in {1, 2, 4, 8, 16, 32, 64, 128} && first <= b.nsector
                  && exists fl: nat ::
                       && Suits(data, per, b.nsector, maxcl, fl)
                       && (if kind == Fat32 then b.nfsect == 0 && b.xnfsect == fl
                           else b.nfsect == fl % 0x1_0000 && b.xnfsect == 0))
            && forall s: nat, fl: nat ::
                 s in {1, 2, 4, 8, 16, 32, 64, 128} && first <= s && (b.nsector == 0 || s < b.nsector) ==>
                   !Suits(data, per, s, maxcl, fl)
  {
    hide *;
    Limits();
    LayoutIs(num);
    PowerFour();
    NumbersOf(num);
    if kind == Fat32 {
      LeastSize(num - 32, 128, FirstSize32(num), 268435449);
      Tried(ClusterSizeFrom(num - 32, 128, FirstSize32(num), 268435449));
    } else {
      var data := if num > 8386721 then 8386688 else num - 33;
      LeastSize(data, 256, 4, 65519);
      Tried(ClusterSizeFrom(data, 256, 4, 65519));
    }
  }

  /** The layout of a FAT12 volume: clusters of eight sectors, and the shortest FAT with room for the entries of all
      sectors up to the cap, three bytes for two, and of the two reserved ones. */
  lemma Layout12Least(num: nat)
    requires 35 <= num < 0x1_0000_0000
    ensures var b := Layout(num, Fat12);
            && b == Bpb(512, 8, 1, 2, 512, if num < 0x1_0000 then num else 0, if num < 0x1_0000 then 0 else num,
                        b.nfsect, 0, 0)
            && var data, n := if num > 32673 then 32640 else num - 33, b.nfsect;
            && 3 * (data - 2 * n) + 48 <= 8 * (1024 * n)
            && (n > 0 ==> 3 * (data - 2 * (n - 1)) + 48 > 8 * (1024 * (n - 1)))
  {
    LayoutIs(num);
    NumbersOf(num);
    var data := if num > 32673 then 32640 else num - 33;
    CeilingIs((data + 16) * 3, 8198);
  }

  /** What the subtractions in 32 bits and the cut to 16 bits are. */
  lemma Wraps(a: nat, b: nat, c: Bpb, data: nat, shift: nat)
    requires a < 0x1_0000_0000 && b < 0x1_0000_0000
    ensures Sub32(a, b) == if b <= a then a - b else a + 0x1_0000_0000 - b
    ensures RawSize(c, data, shift) == (Quotient(Sub32(SizeOf(c), data), Pow2(shift)) + 1) % 0x1_0000
  {
    RawIs(c, data, shift);
    hide RawSize, Quotient, SizeOf, Pow2;
    var q := Quotient(Sub32(SizeOf(c), data), Pow2(shift));
    assert q == q / 0x1_0000 * 0x1_0000 + q % 0x1_0000;
  }

  lemma RawIs(c: Bpb, data: nat, shift: nat)
    ensures RawSize(c, data, shift) == (Quotient(Sub32(SizeOf(c), data), Pow2(shift)) % 0x1_0000 + 1) % 0x1_0000
  {
  }

  lemma Tried(ns: nat)
    ensures ns != 0 ==> LastTried(ns) == ns
  {
  }

  lemma NumbersOf(num: nat)
    requires 35 <= num < 0x1_0000_0000
    ensures SmallSize(num) == (if num < 0x1_0000 then num else 0) && SmallSize(num) + LargeSize(num) == num
    ensures Sub32(num, 32) == num - 32 && Sub32(num, 33) == num - 33
    ensures FirstSize32(num) == if num <= 532480 then 1
                                else if num < 9 * 2097152 then 8
                                else if num < 17 * 2097152 then 16
                                else if num < 33 * 2097152 then 32
                                else 64
  {
  }

  lemma Wrapped(fatdata: nat, ns: nat)
    requires fatdata < 2 && 0 < ns <= 128
    ensures Sub32(fatdata, 2) / ns > 254
  {
    var n := Sub32(fatdata, 2);
    assert n >= 0xFFFF_FFFE;
    IntParts(n, ns);
    if n / ns <= 254 {
      MulMono(n / ns, 254, ns);
    }
  }

  /** With at least 4086 clusters, doubling their size leads to an accepted one. */
  lemma {:induction false} Search16(fatdata: nat, ns: nat)
    requires 2 <= fatdata <= 8386688 && PowerUpTo256(ns) && 4 <= ns <= 128
    requires 2 * FatLength(fatdata, 256, ns) <= fatdata && (fatdata - 2 * FatLength(fatdata, 256, ns)) / ns >= 4086
    ensures ClusterSizeFrom(fatdata, 256, ns, 65519) != 0
    decreases 256 - ns
  {
    hide *;
    Limits();
    var fl := FatLength(fatdata, 256, ns);
    AcceptedWhen(fatdata, 256, ns, 65519, fl);
    SizeStep(fatdata, 256, ns, 65519);
    if (fatdata - 2 * fl) / ns > 65517 {
      FatLengthBounds(fatdata, 256, ns);
      DivisorIs(256, ns);
      TooManyClusters(fatdata, ns, fl);
      Doubled(ns);
      var fl2 := FatLength(fatdata, 256, 2 * ns);
      NoUnderflow(fatdata, 256, 2 * ns);
      FatLengthBounds(fatdata, 256, 2 * ns);
      DivisorIs(256, 2 * ns);
      StillEnough(fatdata, ns, fl2);
      Search16(fatdata, 2 * ns);
    }
  }

  lemma DivisorIs(per: nat, ns: nat)
    ensures Divisor(per, ns) == per * ns + 2
  {
  }

  /** Clusters of 64K are always large enough. */
  lemma TooManyClusters(fatdata: nat, ns: nat, fl: nat)
    requires fatdata <= 8386688 && 4 <= ns <= 128 && 2 * fl <= fatdata && (fatdata - 2 * fl) / ns > 65517
    requires fatdata + 2 * ns <= fl * (256 * ns + 2)
    ensures ns < 128 && fatdata >= 65518 * ns
  {
    IntParts(fatdata - 2 * fl, ns);
    MulMono(65518, (fatdata - 2 * fl) / ns, ns);
    if ns == 128 {
      assert fl <= 192;
      MulMono(fl, 192, 32770);
    }
  }

  lemma StillEnough(fatdata: nat, ns: nat, fl: nat)
    requires 4 <= ns && fatdata >= 65518 * ns && 2 * fl <= fatdata
    requires fl * (256 * (2 * ns) + 2) < fatdata + 2 * (2 * ns) + (256 * (2 * ns) + 2)
    ensures (fatdata - 2 * fl) / (2 * ns) >= 4086
  {
    Spread(fl, 512 * ns);
    Reassociate(fl, 512, ns);
    Commute(fl, 512);
    Reassociate(512, fl, ns);
    MulMono(4, ns, fl);
    Commute(ns, fl);
    AtLeastQuotient(fatdata - 2 * fl, 2 * ns, 4086);
  }

  lemma AtLeastQuotient(n: nat, d: nat, q: nat)
    requires d > 0 && n >= q * d
    ensures n / d >= q
  {
    IntParts(n, d);
    if n / d < q {
      MulMono(n / d + 1, q, d);
      MulStep(n / d, d);
    }
  }

  /** A quotient is small when the number is. */
  lemma SmallQuotient(n: nat, d: nat, q: nat)
    requires d > 0 && n < q * d
    ensures n / d < q
  {
    IntParts(n, d);
    if n / d >= q {
      MulMono(q, n / d, d);
    }
  }

  /** With fewer than 4086 clusters to begin with, no size is accepted. */
  lemma {:induction false} NoSize(fatdata: nat, per: nat, ns: nat, maxcl: nat)
    requires per in {128, 256} && PowerUpTo256(ns) && ns <= 128 && 65519 <= maxcl < 0x1_0000_0000 && fatdata < 8172 * ns
    requires fatdata >= 2 && 2 * FatLength(fatdata, per, ns) <= fatdata ==>
               (fatdata - 2 * FatLength(fatdata, per, ns)) / ns < 4086
    ensures ClusterSizeFrom(fatdata, per, ns, maxcl) == 0
    decreases 256 - ns
  {
    hide *;
    Limits();
    PowerParts(ns);
    AcceptedWhen(fatdata, per, ns, maxcl, FatLength(fatdata, per, ns));
    SizeStep(fatdata, per, ns, maxcl);
    if ns < 128 {
      Doubled(ns);
      var fl2 := FatLength(fatdata, per, 2 * ns);
      if fatdata >= 2 && 2 * fl2 <= fatdata {
        SmallQuotient(fatdata - 2 * fl2, 2 * ns, 4086);
      }
      NoSize(fatdata, per, 2 * ns, maxcl);
    }
  }

  /** The smallest clusters of FAT16 and of FAT32 are enough, or not, at exactly these sizes. */
  lemma FewestClusters(fatdata: nat)
    requires fatdata >= 2 && 2 * FatLength(fatdata, 256, 4) <= fatdata && 2 * FatLength(fatdata, 128, 1) <= fatdata
    ensures (fatdata - 2 * FatLength(fatdata, 256, 4)) / 4 >= 4086 <==> fatdata >= 16376
    ensures (fatdata - 2 * FatLength(fatdata, 128, 1)) / 1 >= 4086 <==> fatdata >= 4150
  {
    FatLengthBounds(fatdata, 256, 4);
    FatLengthBounds(fatdata, 128, 1);
    DivisorIs(256, 4);
    DivisorIs(128, 1);
    hide *;
    Fewest16(fatdata, FatLength(fatdata, 256, 4));
    Fewest32(fatdata, FatLength(fatdata, 128, 1));
  }

  lemma Fewest16(fatdata: nat, fl: nat)
    requires 2 * fl <= fatdata && fatdata + 8 <= fl * 1026 < fatdata + 8 + 1026
    ensures (fatdata - 2 * fl) / 4 >= 4086 <==> fatdata >= 16376
  {
  }

  lemma Fewest32(fatdata: nat, fl: nat)
    requires 2 * fl <= fatdata && fatdata + 2 <= fl * 130 < fatdata + 2 + 130
    ensures (fatdata - 2 * fl) / 1 >= 4086 <==> fatdata >= 4150
  {
  }

  /** At the cap, only clusters of 64K are large enough for FAT16. */
  lemma CappedSize(ns: nat)
    requires ns in {4, 8, 16, 32, 64, 128}
    ensures Accepted(8386688, 256, ns, 65519) <==> ns == 128
    ensures ns == 128 ==> FatLength(8386688, 256, ns) == 256
  {
    hide *;
    var fl := FatLength(8386688, 256, ns);
    AcceptedWhen(8386688, 256, ns, 65519, fl);
    FatLengthBounds(8386688, 256, ns);
    DivisorIs(256, ns);
    CappedClusters(ns, fl);
  }

  lemma CappedClusters(ns: nat, fl: nat)
    requires ns in {4, 8, 16, 32, 64, 128} && 2 * fl <= 8386688
    requires 8386688 + 2 * ns <= fl * (256 * ns + 2) < 8386688 + 2 * ns + (256 * ns + 2)
    ensures (4086 <= (8386688 - 2 * fl) / ns <= 65517) <==> ns == 128
    ensures ns == 128 ==> fl == 256
  {
    if ns == 4 {
    } else if ns == 8 {
    } else if ns == 16 {
    } else if ns == 32 {
    } else if ns == 64 {
    } else {
    }
  }

  lemma Capped16()
    ensures ClusterSizeFrom(8386688, 256, 4, 65519) == 128 && FatLength(8386688, 256, 128) == 256
  {
    hide *;
    PowerFour();
    CappedStep(4);
    CappedStep(8);
    CappedStep(16);
    CappedStep(32);
    CappedStep(64);
    CappedStep(128);
  }

  lemma CappedStep(ns: nat)
    requires ns in {4, 8, 16, 32, 64, 128}
    ensures ClusterSizeFrom(8386688, 256, ns, 65519) ==
            if ns == 128 then 128 else ClusterSizeFrom(8386688, 256, 2 * ns, 65519)
    ensures ns == 128 ==> FatLength(8386688, 256, ns) == 256
  {
    PowersOfTwo(ns);
    hide *;
    CappedSize(ns);
    SizeStep(8386688, 256, ns, 65519);
  }

  lemma PowersOfTwo(ns: nat)
    requires ns in {4, 8, 16, 32, 64, 128}
    ensures PowerUpTo256(ns)
  {
  }

  /** The layout of a partition past the cap, or too small to have one. */
  lemma LayoutCapped(num: nat)
    requires num < 33 || 8386721 < num < 0x1_0000_0000
    ensures Layout(num, Fat16) == Bpb(512, 128, 1, 2, 512, SmallSize(num), LargeSize(num), 256, 0, 0)
  {
    hide *;
    Limits();
    Capped16();
    LayoutIs(num);
    CappedData(num);
    TriedLast();
  }

  lemma CappedData(num: nat)
    requires num < 33 || 8386721 < num < 0x1_0000_0000
    ensures Sub32(num, 33) > 8386688
  {
  }

  lemma TriedLast()
    ensures LastTried(128) == 128
  {
  }

  lemma Outside16(num: nat, b: Bpb, unit: int)
    requires num < 0x1_0000_0000 && b == Bpb(512, 128, 1, 2, 512, SmallSize(num), LargeSize(num), 256, 0, 0)
    ensures num < 33 || num > 8387744 ==> !Recovers(num, b, DpbOf(b, unit), Fat16)
  {
    SmallDpb(num, 128, 256, b, unit);
    MaskOfEight();
    hide DpbOf, Clamped, RawSize, PowerUpTo256, FromMask, SmallSize, LargeSize;
  }

  /** A layout for which no cluster size was found is not the one of its `struct dpb`. */
  lemma NoneFound(num: nat, b: Bpb, unit: int, kind: Kind)
    requires b.nsector == 0 && b.nbyte == 512
    ensures !Recovers(num, b, DpbOf(b, unit), kind)
  {
  }

  lemma LayoutNone16(num: nat)
    requires 33 <= num <= 8386721 && ClusterSizeFrom(num - 33, 256, 4, FAT16MAX) == 0
    ensures Layout(num, Fat16).nsector == 0 && Layout(num, Fat16).nbyte == 512
  {
    Small32(num, 33);
  }

  /** FAT16 partitions are laid out and read back right exactly from 16409 to 8387744 sectors: below there are too few
      clusters of any size, above, past the cap of 8386721 sectors, in the end too many. */
  lemma Geometry16(num: nat, unit: int)
    requires num < 0x1_0000_0000
    ensures Recovers(num, Layout(num, Fat16), DpbOf(Layout(num, Fat16), unit), Fat16) <==> 16409 <= num <= 8387744
  {
    hide *;
    Limits();
    PowerFour();
    var b := Layout(num, Fat16);
    if num < 33 || num > 8386721 {
      LayoutCapped(num);
      Outside16(num, b, unit);
      if 8386721 < num <= 8387744 {
        PowersOfTwo(128);
        Dpb16(num, 128, 256, (num - 545) / 128, b, unit);
      }
    } else {
      var fatdata := num - 33;
      NoUnderflow(fatdata, 256, 4);
      NoUnderflow(fatdata, 128, 1);
      if fatdata >= 2 {
        FewestClusters(fatdata);
      }
      if fatdata >= 16376 {
        Search16(fatdata, 4);
        Found16(num, unit);
      } else {
        NoSize(fatdata, 256, 4, 65519);
        LayoutNone16(num);
        NoneFound(num, b, unit, Fat16);
      }
    }
  }

  /** On FAT32 the first cluster size tried is accepted as soon as there are enough sectors. */
  lemma First32(num: nat)
    requires 4182 <= num < 0x1_0000_0000
    ensures ClusterSizeFrom(num - 32, 128, FirstSize32(num), 268435449) != 0
  {
    hide *;
    Limits();
    PowerFour();
    var ns, fl := FirstSize32(num), FatLength(num - 32, 128, FirstSize32(num));
    PowerParts(ns);
    NoUnderflow(num - 32, 128, ns);
    FatLengthBounds(num - 32, 128, ns);
    DivisorIs(128, ns);
    FirstIs(num);
    EnoughClusters(num - 32, ns, fl);
    IntParts(num - 32 - 2 * fl, ns);
    ClustersBelow(num, ns, ns, (num - 32 - 2 * fl) / ns);
    AcceptedWhen(num - 32, 128, ns, 268435449, fl);
    SizeStep(num - 32, 128, ns, 268435449);
  }

  lemma FirstIs(num: nat)
    ensures FirstSize32(num) == 1 <==> num <= 532480
    ensures FirstSize32(num) >= 16 ==> num >= 9 * 2097152
    ensures FirstSize32(num) >= 32 ==> num >= 17 * 2097152
  {
  }

  lemma EnoughClusters(fatdata: nat, ns: nat, fl: nat)
    requires ns in {1, 8, 16, 32, 64} && 2 * fl <= fatdata && fl * (128 * ns + 2) < fatdata + 2 * ns + (128 * ns + 2)
    requires fatdata >= if ns == 1 then 4150 else if ns == 8 then 532449 else 18000000
    ensures (fatdata - 2 * fl) / ns >= 4086
  {
    if ns == 1 {
    } else {
      MulMono(8, ns, fl);
      Spread(fl, 128 * ns);
      Reassociate(fl, 128, ns);
      Commute(fl, 128);
      Reassociate(128, fl, ns);
      Commute(ns, fl);
      AtLeastQuotient(fatdata - 2 * fl, ns, 4086);
    }
  }

  lemma LayoutNone32(num: nat)
    requires 32 <= num < 4182 && ClusterSizeFrom(num - 32, 128, 1, FAT32MAX) == 0
    ensures Layout(num, Fat32).nsector == 0 && Layout(num, Fat32).nbyte == 512
  {
    Small32(num, 32);
  }

  lemma Below32(num: nat, unit: int)
    requires num < 32
    ensures !Recovers(num, Layout(num, Fat32), DpbOf(Layout(num, Fat32), unit), Fat32)
  {
    hide ClusterSizeFrom, FatLength, Clamped, RawSize, DataSector;
    var d := DpbOf(Layout(num, Fat32), unit);
    assert d.DataStart() >= 32;
  }

  /** FAT32 partitions are laid out and read back right exactly from 4182 sectors on. */
  lemma Geometry32(num: nat, unit: int)
    requires num < 0x1_0000_0000
    ensures Recovers(num, Layout(num, Fat32), DpbOf(Layout(num, Fat32), unit), Fat32) <==> num >= 4182
  {
    hide *;
    Limits();
    PowerFour();
    if num < 32 {
      Below32(num, unit);
    } else if num < 4182 {
      var fatdata := num - 32;
      FirstIs(num);
      NoUnderflow(fatdata, 256, 4);
      NoUnderflow(fatdata, 128, 1);
      if fatdata >= 2 {
        FewestClusters(fatdata);
      }
      NoSize(fatdata, 128, 1, 268435449);
      LayoutNone32(num);
      NoneFound(num, Layout(num, Fat32), unit, Fat32);
    } else {
      First32(num);
      Found32(num, unit);
    }
  }
}
