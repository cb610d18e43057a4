/** The file allocation table of kernel/fattab.c: packed entries in cached sectors,
    seen as one array of cluster numbers. */
module FatTable {
  import opened ErrorCodes
  import opened Arith
  import opened FatPacking
  import opened LruRing
  import opened BlockIo

  const FAT_MAGIC: nat := 4085
  const FAT_MAGIC16: nat := 65525
  const UNKNCLUSTER: nat := 0
  const READ_CLUSTER: nat := 1

  /** Sectors in a cluster: a power of two that `dpb_clsmask` can mask for. */
  predicate PowerUpTo256(n: nat) {
    n in {1, 2, 4, 8, 16, 32, 64, 128, 256}
  }

  /** The constant part of `struct dpb`; `spc` is the number of sectors in a cluster. */
  datatype Dpb = Dpb(unit: int, secsize: nat, spc: nat, fatstrt: nat, fats: nat, size: nat, fatsize: nat,
                     data: nat, noMirroring: bool, active: nat, xsize: nat, xfatsize: nat, xdata: nat)
  {
    predicate IsFat32() {
      fatsize == 0
    }

    predicate IsFat16() {
      FAT_MAGIC < size <= FAT_MAGIC16
    }

    predicate IsFat12() {
      1 <= size <= FAT_MAGIC
    }

    function Kind(): Kind {
      if IsFat12() then Fat12 else if IsFat16() then Fat16 else Fat32
    }

    function MaxCluster(): nat {
      if IsFat32() then xsize else size
    }

    /** The free count that stands for "not known". */
    function UnknownFree(): nat {
      if IsFat32() then 0xFFFF_FFFF else 0xFFFF
    }

    /** First sector of the FAT in use. */
    function FatStart(): nat {
      if IsFat32() && noMirroring then fatstrt + active * xfatsize else fatstrt
    }

    function FatSectors(): nat {
      if IsFat32() then xfatsize else fatsize
    }

    function Copies(): nat {
      if IsFat32() && noMirroring then 1 else fats
    }

    function DataStart(): nat {
      if IsFat32() then xdata else data
    }

    /** A volume whose type fields agree and whose FAT has room for all its entries. */
    ghost predicate Valid() {
      && (if IsFat32() then size == 0 && 1 <= xsize < LONG_BAD else IsFat12() || IsFat16())
      && secsize > 0 && secsize % 4 == 0 && spc > 0 && PowerUpTo256(spc)
      && Fits(Kind(), FatSectors() * secsize, MaxCluster())
      && (IsFat12() ==> FatStart() + FatSectors() <= 0x1_0000)
      && FatStart() + Copies() * FatSectors() <= DataStart()
    }

    predicate InFat(b: Block) {
      b.unit == unit && FatStart() <= b.num < FatStart() + FatSectors()
    }

    /** Byte `k` of the FAT on the logical disk `l`. */
    function FatByte(l: map<Block, Sector>, k: nat): byte
      requires secsize > 0
    {
      var b := Block(unit, FatStart() + k / secsize);
      if b in l && k % secsize < |l[b]| then l[b][k % secsize] else 0
    }

    /** The FAT as bytes. */
    ghost function Image(l: map<Block, Sector>): (r: seq<byte>)
      requires secsize > 0
      ensures |r| == FatSectors() * secsize
    {
      seq(FatSectors() * secsize, k requires 0 <= k => FatByte(l, k))
    }

    /** The FAT as cluster numbers; entries 0 and 1 are not used. */
    ghost function Fat(l: map<Block, Sector>): (r: seq<nat>)
      requires secsize > 0
      ensures |r| == MaxCluster() + 1
    {
      seq(MaxCluster() + 1, c requires 0 <= c =>
        if c < 2 || !Fits(Kind(), FatSectors() * secsize, c) then 0 else Read(Kind(), Image(l), c))
    }

    /** The sector of the FAT and the byte in it where entry `c` starts. */
    method Locate(c: nat) returns (q: nat, idx: nat)
      requires Valid() && Fits(Kind(), FatSectors() * secsize, c)
      ensures q < FatSectors() && q * secsize + idx == Offset(Kind(), c)
      ensures if Kind() == Fat12 then idx < secsize else idx + Width(Kind()) <= secsize
    {
      q, idx := LocateEntry(Kind(), c, secsize);
      SectorBound(q, idx, secsize, FatSectors());
    }

    /** The block with byte `k` of the FAT in use, by the fields of `struct dpb`. */
    ghost function PlaceOf(k: nat): Block
      requires secsize > 0
    {
      Block(unit, fatstrt + (if fatsize == 0 && noMirroring then active * xfatsize else 0) + k / secsize)
    }

    /** That byte. */
    ghost function ByteOf(l: map<Block, Sector>, k: nat): int
      requires secsize > 0
    {
      var b := PlaceOf(k);
      if b in l && k % secsize < |l[b]| then l[b][k % secsize] else 0
    }

    /** First byte of the entry of cluster `c`, and the number of bytes it is in. */
    ghost function EntryPlace(c: nat): (nat, nat) {
      if fatsize == 0 then (4 * c, 4) else if size <= 4085 then (3 * c / 2, 2) else (2 * c, 2)
    }

    /** The bits of the entry of cluster `c`. */
    ghost function EntryBits(l: map<Block, Sector>, c: nat): int
      requires secsize > 0
    {
      var o := EntryPlace(c).0;
      var low := ByteOf(l, o) + 0x100 * ByteOf(l, o + 1);
      if fatsize == 0 then low + 0x1_0000 * ByteOf(l, o + 2) + 0x100_0000 * ByteOf(l, o + 3)
      else if size > 4085 then low
      else if c % 2 == 1 then low / 16
      else low % 0x1000
    }

    /** What these bits say: the next cluster, 0x0FFFFFFF at an end and 0x0FFFFFF7 for a bad cluster. */
    ghost function EntryOf(l: map<Block, Sector>, c: nat): int
      requires secsize > 0
    {
      var x := EntryBits(l, c);
      if fatsize == 0 then (if x % 0x1000_0000 > 0x0FFF_FFF7 then 0x0FFF_FFFF else x % 0x1000_0000)
      else if size > 4085 then (if x >= 0xFFF8 then 0x0FFF_FFFF else if x == 0xFFF7 then 0x0FFF_FFF7 else x)
      else if x >= 0xFF8 then 0x0FFF_FFFF
      else if x == 0xFF7 then 0x0FFF_FFF7
      else x
    }

    /** Byte `i` of block `b` is one of those with the entry of cluster `c`. */
    ghost predicate InEntry(c: nat, b: Block, i: nat)
      requires secsize > 0
    {
      var (o, n) := EntryPlace(c);
      exists k: nat :: o <= k < o + n && b == PlaceOf(k) && i == k % secsize
    }

    /** From `l` to `l'` the entry of `c` got the bits of `v`, and nothing else on the disk changed. */
    ghost predicate Rewritten(l: map<Block, Sector>, l': map<Block, Sector>, c: nat, v: nat)
      requires secsize > 0
    {
      && EntryBits(l', c) == v % (if fatsize == 0 then 0x1000_0000 else if size <= 4085 then 0x1000 else 0x1_0000)
      && (fatsize != 0 && size <= 4085 ==>
            var o := 3 * c / 2;
            if c % 2 == 1 then ByteOf(l', o) % 16 == ByteOf(l, o) % 16
            else ByteOf(l', o + 1) / 16 == ByteOf(l, o + 1) / 16)
      && l'.Keys == l.Keys
      && forall b :: b in l ==>
           && |l'[b]| == |l[b]|
           && forall i: nat :: i < |l[b]| && !InEntry(c, b, i) ==> l'[b][i] == l[b][i]
    }

    /** Every copy of the FAT that is kept has what the first has, by the fields of `struct dpb`. */
    ghost predicate CopiesEqual(disk: map<Block, Sector>) {
      !(fatsize == 0 && noMirroring) ==>
        forall q: nat, j: nat :: q < (if fatsize == 0 then xfatsize else fatsize) && j < fats ==> CopyEqual(disk, q, j)
    }

    ghost predicate CopyEqual(disk: map<Block, Sector>, q: nat, j: nat) {
      var first := Block(unit, fatstrt + q);
      var copy := Block(unit, fatstrt + j * (if fatsize == 0 then xfatsize else fatsize) + q);
      j > 0 ==> first in disk && copy in disk && disk[copy] == disk[first]
    }

    /** The sectors of the FAT are on the disk `l`. */
    ghost predicate OnDisk(l: map<Block, Sector>) {
      forall b :: InFat(b) ==> b in l && |l[b]| == secsize
    }

    /** Everything else on the logical disk. */
    ghost function Rest(l: map<Block, Sector>): map<Block, Sector> {
      map b | b in l && !InFat(b) :: l[b]
    }
  }

  /** Every entry up to the last has room when the last one has. */
  lemma EntryFits(d: Dpb, c: nat)
    requires d.Valid() && c <= d.MaxCluster()
    ensures Fits(d.Kind(), d.FatSectors() * d.secsize, c)
  {
  }

  lemma FatEntry(d: Dpb, l: map<Block, Sector>, c: nat)
    requires d.Valid() && 2 <= c <= d.MaxCluster()
    ensures Fits(d.Kind(), |d.Image(l)|, c) && d.Fat(l)[c] == Read(d.Kind(), d.Image(l), c)
  {
    EntryFits(d, c);
  }

  /** Writing an entry of the packed FAT updates the array of cluster numbers at one place. */
  lemma EntryWritten(d: Dpb, l: map<Block, Sector>, l': map<Block, Sector>, c: nat, v: nat)
    requires d.Valid() && 2 <= c <= d.MaxCluster()
    requires Fits(d.Kind(), |d.Image(l)|, c) && d.Image(l') == Write(d.Kind(), d.Image(l), c, v)
    ensures d.Fat(l') == d.Fat(l)[c := Canon(d.Kind(), v)]
  {
    forall e: nat | e <= d.MaxCluster() ensures d.Fat(l')[e] == d.Fat(l)[c := Canon(d.Kind(), v)][e] {
      if e >= 2 {
        EntryFits(d, e);
        if e == c {
          ReadBack(d.Kind(), d.Image(l), c, v);
        } else {
          OthersKept(d.Kind(), d.Image(l), c, v, e);
        }
      }
    }
  }

  lemma ByteOfImage(d: Dpb, l: map<Block, Sector>, k: nat)
    requires d.secsize > 0 && k < d.FatSectors() * d.secsize
    ensures d.ByteOf(l, k) == d.Image(l)[k]
  {
  }

  /** The place and the meaning of an entry, by the fields of `struct dpb` and in numbers. */
  lemma EntryBytes(d: Dpb, l: map<Block, Sector>, c: nat)
    requires d.Valid() && 2 <= c <= d.MaxCluster()
    ensures d.EntryPlace(c) == (Offset(d.Kind(), c), Width(d.Kind()))
    ensures Fits(d.Kind(), |d.Image(l)|, c) && d.EntryBits(l, c) == Raw(d.Kind(), d.Image(l), c)
    ensures d.EntryOf(l, c) == d.Fat(l)[c]
  {
    hide Dpb.Valid, Dpb.ByteOf, Dpb.Image, Dpb.Fat;
    FatEntry(d, l, c);
    KindIs(d);
    var o := Offset(d.Kind(), c);
    ByteOfImage(d, l, o);
    ByteOfImage(d, l, o + 1);
    if d.Kind() == Fat32 {
      ByteOfImage(d, l, o + 2);
      ByteOfImage(d, l, o + 3);
    }
  }

  lemma KindIs(d: Dpb)
    requires d.Valid()
    ensures d.secsize > 0
    ensures d.Kind() == if d.fatsize == 0 then Fat32 else if d.size <= 4085 then Fat12 else Fat16
  {
  }

  lemma CopiesShown(d: Dpb, g: map<int, FatArea>, disk: map<Block, Sector>)
    requires d.unit in g && g[d.unit] == FatArea(d.FatStart(), d.FatSectors(), d.Copies())
    requires CopiesAgree(g, disk, d.unit)
    ensures d.CopiesEqual(disk)
  {
    if !(d.fatsize == 0 && d.noMirroring) {
      forall q: nat, j: nat | q < d.FatSectors() && j < d.fats ensures d.CopyEqual(disk, q, j) {
        var b := Block(d.unit, d.fatstrt + q);
        if j > 0 {
          assert InPrimary(g, b) && Copy(b, g[d.unit].size, j).num == d.fatstrt + j * d.FatSectors() + q;
        }
      }
    }
  }

  lemma OnDiskIs(d: Dpb, l: map<Block, Sector>)
    requires forall b :: d.InFat(b) ==> b in l && |l[b]| == d.secsize
    ensures d.OnDisk(l)
  {
  }

  /** Writing the packed FAT writes the bytes of one entry and nothing else. */
  lemma Rewrote(d: Dpb, l: map<Block, Sector>, l': map<Block, Sector>, c: nat, v: nat)
    requires d.Valid() && 2 <= c <= d.MaxCluster() && Fits(d.Kind(), |d.Image(l)|, c)
    requires d.OnDisk(l) && d.OnDisk(l') && d.Rest(l') == d.Rest(l)
    requires d.Image(l') == Write(d.Kind(), d.Image(l), c, v)
    ensures d.Rewritten(l, l', c, v)
  {
    hide *;
    KindIs(d);
    EntryBytes(d, l, c);
    EntryBytes(d, l', c);
    NewBits(d, l, l', c, v);
    KeysKept(d, l, l');
    forall b | b in l
      ensures |l'[b]| == |l[b]| && forall i: nat :: i < |l[b]| && !d.InEntry(c, b, i) ==> l'[b][i] == l[b][i]
    {
      BlockKept(d, l, l', c, v, b);
    }
    RewrittenIs(d, l, l', c, v);
  }

  lemma NewBits(d: Dpb, l: map<Block, Sector>, l': map<Block, Sector>, c: nat, v: nat)
    requires d.Valid() && Fits(d.Kind(), |d.Image(l)|, c) && d.Image(l') == Write(d.Kind(), d.Image(l), c, v)
    ensures Raw(d.Kind(), d.Image(l'), c) ==
            v % (if d.fatsize == 0 then 0x1000_0000 else if d.size <= 4085 then 0x1000 else 0x1_0000)
    ensures d.fatsize != 0 && d.size <= 4085 ==>
              var o := 3 * c / 2;
              if c % 2 == 1 then d.ByteOf(l', o) % 16 == d.ByteOf(l, o) % 16
              else d.ByteOf(l', o + 1) / 16 == d.ByteOf(l, o + 1) / 16
  {
    hide *;
    KindIs(d);
    RawBack(d.Kind(), d.Image(l), c, v);
    CutIs(d.Kind(), v);
    if d.Kind() == Fat12 {
      var o := 3 * c / 2;
      FitsIs(Fat12, |d.Image(l)|, c);
      ByteOfImage(d, l, o);
      ByteOfImage(d, l, o + 1);
      ByteOfImage(d, l', o);
      ByteOfImage(d, l', o + 1);
      NibbleKept(d.Image(l), c, v);
    }
  }

  lemma CutIs(kind: Kind, v: nat)
    ensures Cut(kind, v) == v % match kind case Fat12 => 0x1000 case Fat16 => 0x1_0000 case Fat32 => 0x1000_0000
  {
  }

  lemma FitsIs(kind: Kind, n: nat, c: nat)
    requires Fits(kind, n, c)
    ensures match kind case Fat12 => 3 * c / 2 + 2 <= n case Fat16 => 2 * c + 2 <= n case Fat32 => 4 * c + 4 <= n
  {
  }

  lemma NibbleKept(img: seq<byte>, c: nat, v: nat)
    requires Fits(Fat12, |img|, c)
    ensures var o, w := 3 * c / 2, Write(Fat12, img, c, v);
            o + 1 < |img| && if c % 2 == 1 then w[o] % 16 == img[o] % 16 else w[o + 1] / 16 == img[o + 1] / 16
  {
    var o := 3 * c / 2;
    WordBytes(img[o], img[o + 1]);
    OddNibbles(Word(img[o], img[o + 1]), Cut(Fat12, v));
    EvenNibbles(Word(img[o], img[o + 1]), Cut(Fat12, v));
  }

  lemma KeysKept(d: Dpb, l: map<Block, Sector>, l': map<Block, Sector>)
    requires d.OnDisk(l) && d.OnDisk(l') && d.Rest(l') == d.Rest(l)
    ensures l'.Keys == l.Keys
  {
    forall b ensures b in l <==> b in l' {
      assert b in d.Rest(l) <==> b in l && !d.InFat(b);
      assert b in d.Rest(l') <==> b in l' && !d.InFat(b);
    }
  }

  lemma BlockKept(d: Dpb, l: map<Block, Sector>, l': map<Block, Sector>, c: nat, v: nat, b: Block)
    requires d.Valid() && 2 <= c <= d.MaxCluster() && Fits(d.Kind(), |d.Image(l)|, c)
    requires d.OnDisk(l) && d.OnDisk(l') && d.Rest(l') == d.Rest(l) && l'.Keys == l.Keys && b in l
    requires d.Image(l') == Write(d.Kind(), d.Image(l), c, v)
    ensures |l'[b]| == |l[b]| && forall i: nat :: i < |l[b]| && !d.InEntry(c, b, i) ==> l'[b][i] == l[b][i]
  {
    hide *;
    if d.InFat(b) {
      SectorOf(d, l, b);
      SectorOf(d, l', b);
      forall i: nat | i < |l[b]| && !d.InEntry(c, b, i) ensures l'[b][i] == l[b][i] {
        FatByteKept(d, l, l', c, v, b, i);
      }
    } else {
      RestAt(d, l, l', b);
    }
  }

  lemma RestAt(d: Dpb, l: map<Block, Sector>, l': map<Block, Sector>, b: Block)
    requires d.Rest(l') == d.Rest(l) && l'.Keys == l.Keys && b in l && !d.InFat(b)
    ensures l'[b] == l[b]
  {
    assert d.Rest(l)[b] == l[b] && d.Rest(l')[b] == l'[b];
  }

  lemma SectorOf(d: Dpb, l: map<Block, Sector>, b: Block)
    requires d.OnDisk(l) && d.InFat(b)
    ensures b in l && |l[b]| == d.secsize
  {
  }

  lemma FatByteKept(d: Dpb, l: map<Block, Sector>, l': map<Block, Sector>, c: nat, v: nat, b: Block, i: nat)
    requires d.Valid() && 2 <= c <= d.MaxCluster() && Fits(d.Kind(), |d.Image(l)|, c)
    requires b in l && b in l' && |l[b]| == |l'[b]| == d.secsize && i < d.secsize && d.InFat(b)
    requires d.Image(l') == Write(d.Kind(), d.Image(l), c, v) && !d.InEntry(c, b, i)
    ensures l'[b][i] == l[b][i]
  {
    hide *;
    KindIs(d);
    EntryBytes(d, l, c);
    var q := PlaceOfByte(d, b, i);
    var k := q * d.secsize + i;
    ByteAt(d, l, q, i);
    ByteAt(d, l', q, i);
    NotInEntry(d, c, b, i, k);
    WriteElsewhere(d.Kind(), d.Image(l), c, v, k);
  }

  lemma PlaceOfByte(d: Dpb, b: Block, i: nat) returns (q: nat)
    requires d.secsize > 0 && d.InFat(b) && i < d.secsize
    ensures q < d.FatSectors() && b == Block(d.unit, d.FatStart() + q)
    ensures d.PlaceOf(q * d.secsize + i) == b && (q * d.secsize + i) % d.secsize == i
  {
    q := b.num - d.FatStart();
    DivModUnique(q * d.secsize + i, d.secsize, q, i);
  }

  lemma NotInEntry(d: Dpb, c: nat, b: Block, i: nat, k: nat)
    requires d.secsize > 0 && !d.InEntry(c, b, i) && b == d.PlaceOf(k) && i == k % d.secsize
    ensures var (o, n) := d.EntryPlace(c); !(o <= k < o + n)
  {
  }

  lemma WriteElsewhere(kind: Kind, img: seq<byte>, c: nat, v: nat, k: nat)
    requires Fits(kind, |img|, c) && k < |img| && !(Offset(kind, c) <= k < Offset(kind, c) + Width(kind))
    ensures Write(kind, img, c, v)[k] == img[k]
  {
  }

  lemma RewrittenIs(d: Dpb, l: map<Block, Sector>, l': map<Block, Sector>, c: nat, v: nat)
    requires d.secsize > 0 && l'.Keys == l.Keys
    requires d.EntryBits(l', c) ==
             v % (if d.fatsize == 0 then 0x1000_0000 else if d.size <= 4085 then 0x1000 else 0x1_0000)
    requires d.fatsize != 0 && d.size <= 4085 ==>
               var o := 3 * c / 2;
               if c % 2 == 1 then d.ByteOf(l', o) % 16 == d.ByteOf(l, o) % 16
               else d.ByteOf(l', o + 1) / 16 == d.ByteOf(l, o + 1) / 16
    requires forall b :: b in l ==>
               |l'[b]| == |l[b]| && forall i: nat :: i < |l[b]| && !d.InEntry(c, b, i) ==> l'[b][i] == l[b][i]
    ensures d.Rewritten(l, l', c, v)
  {
    hide Dpb.EntryBits, Dpb.ByteOf, Dpb.InEntry;
  }

  function Put(s: Sector, i: nat, x: byte): (r: Sector)
    requires i < |s|
    ensures |r| == |s|
  {
    s[i := x]
  }

  /** Where byte `i` of FAT sector `q` is in the FAT. */
  lemma ByteAt(d: Dpb, l: map<Block, Sector>, q: nat, i: nat)
    requires d.secsize > 0 && q < d.FatSectors() && i < d.secsize
    ensures q * d.secsize + i < d.FatSectors() * d.secsize
    ensures var b := Block(d.unit, d.FatStart() + q);
            b in l && |l[b]| == d.secsize ==> d.Image(l)[q * d.secsize + i] == l[b][i]
  {
    MulMono(q + 1, d.FatSectors(), d.secsize);
    MulStep(q, d.secsize);
    DivModUnique(q * d.secsize + i, d.secsize, q, i);
  }

  /** Storing one byte of one FAT sector stores one byte of the FAT. */
  lemma ByteStored(d: Dpb, l: map<Block, Sector>, q: nat, i: nat, x: byte)
    requires d.secsize > 0 && q < d.FatSectors() && i < d.secsize
    requires var b := Block(d.unit, d.FatStart() + q); b in l && |l[b]| == d.secsize
    ensures var b := Block(d.unit, d.FatStart() + q);
            && q * d.secsize + i < d.FatSectors() * d.secsize
            && d.Image(l)[q * d.secsize + i] == l[b][i]
            && d.Image(l[b := Put(l[b], i, x)]) == d.Image(l)[q * d.secsize + i := x]
            && d.Rest(l[b := Put(l[b], i, x)]) == d.Rest(l)
  {
    var b := Block(d.unit, d.FatStart() + q);
    var at, l' := q * d.secsize + i, l[b := Put(l[b], i, x)];
    MulMono(q + 1, d.FatSectors(), d.secsize);
    MulStep(q, d.secsize);
    DivModUnique(at, d.secsize, q, i);
    assert d.FatByte(l, at) == l[b][i];
    forall k: nat | k < d.FatSectors() * d.secsize ensures d.Image(l')[k] == d.Image(l)[at := x][k] {
      assert k == k / d.secsize * d.secsize + k % d.secsize;
    }
  }

  /** The entry index of `link_fat` for 12 bits, counted in nibbles, is the byte offset. */
  lemma NibbleIndex(n: nat, s: nat)
    requires s > 0
    ensures n / 2 == n / (s * 2) * s + n % (s * 2) / 2 && n % (s * 2) / 2 < s
  {
    var m := s * 2;
    var q, r := n / m, n % m;
    assert n == q * m + r;
    assert q * m == 2 * (q * s);
    DivModUnique(n, 2, q * s + r / 2, r % 2);
  }

  /** The entry index for `w` bytes an entry. */
  lemma UnitIndex(c: nat, s: nat, w: nat)
    requires s > 0 && w > 0 && s % w == 0
    ensures s / w > 0 && w * c == c / (s / w) * s + c % (s / w) * w && c % (s / w) * w + w <= s
  {
    var p := s / w;
    assert s == p * w;
    var q, r := c / p, c % p;
    assert c == q * p + r;
    assert w * c == q * (p * w) + r * w;
    MulMono(r + 1, p, w);
    MulStep(r, w);
  }

  /** A FAT sector is on the logical disk, in full length. */
  lemma FatSectorExists(d: Dpb, g: map<int, FatArea>, secsize: nat, v: View, b: Block)
    requires Coherent(g, secsize, v, {}) && d.InFat(b)
    requires d.unit in g && g[d.unit] == FatArea(d.FatStart(), d.FatSectors(), d.Copies())
    ensures InPrimary(g, b) && !IsMirror(g, b) && b in v.disk && b in v.logical && |v.logical[b]| == secsize
  {
  }

  /** The byte after the last byte of a sector is the first of the next. */
  lemma NextSector(q: nat, idx: nat, s: nat, n: nat)
    requires s > 0 && idx == s - 1 && q * s + idx + 1 < n * s
    ensures q + 1 < n && (q + 1) * s == q * s + idx + 1
  {
    MulStep(q, s);
    if q + 1 >= n {
      MulMono(n, q + 1, s);
    }
  }

  /** A long word stored as two words. */
  lemma LongWords(x: nat)
    requires x < 0x1000_0000
    ensures x % 0x1_0000 % 256 == x % 256 && x % 0x1_0000 / 256 == x / 256 % 256
    ensures x / 0x1_0000 < 0x1_0000 && x / 0x1_0000 / 256 == x / 0x100_0000
  {
  }

  lemma HoldsParts(x: Buffer, b: Block)
    ensures Holds(x, b) <==> x.valid && x.key == b
  {
  }

  /** A valid buffer shows its block of the logical disk. */
  lemma TaggedData(g: map<int, FatArea>, secsize: nat, v: View, x: Buffer, b: Block)
    requires BufferOk(g, secsize, v, x) && x.valid && x.key == b && b in v.logical
    ensures Holds(x, b) && x.data == v.logical[b] && |x.data| == secsize
  {
  }

  lemma PendingCoherent(g: map<int, FatArea>, secsize: nat, v: View, b: Block)
    requires Coherent(g, secsize, v, {})
    ensures Coherent(g, secsize, v, {b})
  {
  }

  /** Number of free clusters in a FAT. */
  function FreeCount(fat: seq<nat>): (n: nat)
    ensures n <= |fat| && (|fat| >= 2 ==> n <= |fat| - 2)
  {
    if |fat| <= 2 then 0
    else FreeCount(fat[..|fat| - 1]) + if fat[|fat| - 1] == FREE then 1 else 0
  }

  lemma {:induction false} FreeCountUpdate(fat: seq<nat>, c: nat, v: nat)
    requires 2 <= c < |fat|
    ensures FreeCount(fat[c := v]) ==
            FreeCount(fat) - (if fat[c] == FREE then 1 else 0) + (if v == FREE then 1 else 0)
  {
    var n := |fat| - 1;
    if c == n {
      assert fat[c := v][..n] == fat[..n];
    } else {
      assert fat[c := v][..n] == fat[..n][c := v];
      FreeCountUpdate(fat[..n], c, v);
    }
  }

  lemma {:induction false} FreeCountZero(fat: seq<nat>)
    ensures FreeCount(fat) == 0 <==> forall c :: 2 <= c < |fat| ==> fat[c] != FREE
  {
    if |fat| > 2 {
      var n := |fat| - 1;
      FreeCountZero(fat[..n]);
      assert forall c :: 2 <= c < n ==> fat[..n][c] == fat[c];
    }
  }

  /** What is counted: the clusters whose entry is zero. */
  lemma {:induction false} FreeCountIs(fat: seq<nat>)
    ensures FreeCount(fat) == |set c | 2 <= c < |fat| && fat[c] == 0|
  {
    var free := set c | 2 <= c < |fat| && fat[c] == 0;
    if |fat| <= 2 {
      assert free == {};
    } else {
      var n := |fat| - 1;
      var fewer := set c | 2 <= c < n && fat[..n][c] == 0;
      FreeCountIs(fat[..n]);
      assert fat[..n] == fat[..n][..n];
      assert free == if fat[n] == 0 then fewer + {n} else fewer;
    }
  }

  /** The end of `link_fat`: the free count after a write, in the width of its field. */
  function Recount(nfree: nat, unknown: nat, wasfree: bool, c2: nat): nat {
    if (c2 == FREE || wasfree) && nfree != unknown then
      var adjust := if !wasfree then 1 else if c2 != FREE then -1 else 0;
      (nfree + adjust) % (unknown + 1)
    else nfree
  }

  /** A free count that was right stays right, or unknown, exactly when no value other than FREE is cut down to it. */
  lemma CountKept(d: Dpb, fat: seq<nat>, c1: nat, c2: nat, wasfree: bool, nfree: nat)
    requires d.Valid() && |fat| == d.MaxCluster() + 1 && 2 <= c1 < |fat| && (wasfree <==> fat[c1] == FREE)
    requires nfree == d.UnknownFree() || nfree == FreeCount(fat)
    ensures var n := Recount(nfree, d.UnknownFree(), wasfree, c2);
            n == d.UnknownFree() || n == FreeCount(fat[c1 := Canon(d.Kind(), c2)])
            <==> nfree == d.UnknownFree() || (c2 != FREE ==> Canon(d.Kind(), c2) != FREE)
  {
    FewerThanUnknown(d);
    FreeIsStored(d.Kind());
    EndMarks();
    hide *;
    FreeCountUpdate(fat, c1, 1);
    FreeCountUpdate(fat, c1, Canon(d.Kind(), c2));
    Recounted(nfree, d.UnknownFree(), wasfree, c2, FreeCount(fat), Canon(d.Kind(), c2) == FREE);
  }

  lemma Recounted(nfree: nat, unknown: nat, wasfree: bool, c2: nat, free: nat, frees: bool)
    requires nfree == unknown || nfree == free
    requires free < unknown && (wasfree ==> free > 0) && (c2 == FREE ==> frees)
    ensures var n := Recount(nfree, unknown, wasfree, c2);
            n == unknown || n == free - (if wasfree then 1 else 0) + (if frees then 1 else 0)
            <==> nfree == unknown || (c2 != FREE ==> !frees)
  {
    if nfree != unknown {
      var adjust := if !wasfree then 1 else if c2 != FREE then -1 else 0;
      if c2 == FREE || wasfree {
        DivModUnique(nfree + adjust, unknown + 1, 0, nfree + adjust);
      }
    }
  }

  lemma FewerThanUnknown(d: Dpb)
    requires d.Valid()
    ensures d.MaxCluster() < d.UnknownFree()
  {
  }

  lemma FreeIsStored(kind: Kind)
    ensures Canon(kind, FREE) == FREE
  {
  }

  /** An entry of each kind, read and written. */
  lemma Entry12(img: seq<byte>, c: nat, x: nat)
    requires Fits(Fat12, |img|, c) && x < 0x1000
    ensures var o := Offset(Fat12, c);
            && o + 1 < |img|
            && var w := Word(img[o], img[o + 1]);
            && 0 <= w < 0x1_0000 && Pack12(c, w, x) < 0x1_0000
            && Read(Fat12, img, c) == Decode(Fat12, Unpack12(c, w))
            && (Unpack12(c, w) == FREE <==> Read(Fat12, img, c) == FREE)
            && forall v: nat :: v % 0x1000 == x ==>
                 Write(Fat12, img, c, v) == img[o := Pack12(c, w, x) % 256][o + 1 := Pack12(c, w, x) / 256]
    ensures READ_CLUSTER == 1
  {
    var o := Offset(Fat12, c);
    Pack12Word(c, Word(img[o], img[o + 1]), x);
    DecodeFree(Fat12, Raw(Fat12, img, c));
  }

  lemma Entry16(img: seq<byte>, c: nat, x: nat)
    requires Fits(Fat16, |img|, c) && x < 0x1_0000
    ensures var o := Offset(Fat16, c);
            && o + 1 < |img|
            && Read(Fat16, img, c) == Decode(Fat16, Word(img[o], img[o + 1]))
            && (Word(img[o], img[o + 1]) == FREE <==> Read(Fat16, img, c) == FREE)
            && forall v: nat :: v % 0x1_0000 == x ==> Write(Fat16, img, c, v) == img[o := x % 256][o + 1 := x / 256]
  {
    DecodeFree(Fat16, Raw(Fat16, img, c));
  }

  lemma Entry32(img: seq<byte>, c: nat, x: nat)
    requires Fits(Fat32, |img|, c) && x < 0x1000_0000
    ensures var o := Offset(Fat32, c);
            && o + 3 < |img|
            && var long := Long(img[o], img[o + 1], img[o + 2], img[o + 3]);
            && Read(Fat32, img, c) == Decode(Fat32, long)
            && (long % 0x1000_0000 == FREE <==> Read(Fat32, img, c) == FREE)
            && var r := img[o := x % 256][o + 1 := x / 256 % 256][o + 2 := x / 0x1_0000 % 256][o + 3 := x / 0x100_0000];
            forall v: nat :: v % 0x1000_0000 == x ==> Write(Fat32, img, c, v) == r
  {
    DecodeFree(Fat32, Raw(Fat32, img, c));
  }

  /** Sector and byte of an entry of `w` bytes, from the number of entries in a sector. */
  method InSector(c: nat, s: nat, w: nat) returns (q: nat, idx: nat)
    requires s > 0 && w > 0 && s % w == 0
    ensures q * s + idx == w * c && idx + w <= s
  {
    UnitIndex(c, s, w);
    var secdiv := s / w;
    q, idx := c / secdiv, c % secdiv * w;
  }

  /** The entry index of `link_fat`: in nibbles for 12 bits, in entries for 16 and 32. */
  method LocateEntry(kind: Kind, c: nat, s: nat) returns (q: nat, idx: nat)
    requires s > 0 && s % 4 == 0
    ensures q * s + idx == Offset(kind, c)
    ensures if kind == Fat12 then idx < s else idx + Width(kind) <= s
  {
    hide *;
    OffsetIs(kind, c);
    if kind == Fat12 {
      q, idx := InNibbles(3 * c, s);
    } else {
      FourIsTwice(s);
      q, idx := InSector(c, s, if kind == Fat16 then 2 else 4);
    }
  }

  lemma OffsetIs(kind: Kind, c: nat)
    ensures Offset(kind, c) == match kind case Fat12 => 3 * c / 2 case Fat16 => 2 * c case Fat32 => 4 * c
    ensures Width(kind) == if kind == Fat32 then 4 else 2
  {
  }

  lemma FourIsTwice(s: nat)
    requires s % 4 == 0
    ensures s % 2 == 0
  {
    DivModUnique(s, 2, s / 4 * 2, 0);
  }

  /** Sector and byte of the nibble number `n`. */
  method InNibbles(n: nat, s: nat) returns (q: nat, idx: nat)
    requires s > 0
    ensures q * s + idx == n / 2 && idx < s
  {
    NibbleIndex(n, s);
    var secdiv := s * 2;
    q, idx := n / secdiv, n % secdiv / 2;
  }

  lemma SectorBound(q: nat, idx: nat, s: nat, n: nat)
    requires idx < s && q * s + idx < n * s
    ensures q < n
  {
    if q >= n {
      MulMono(n, q, s);
    }
  }

  /** Free marks, end marks and numbers of clusters are stored unchanged. */
  lemma CanonStorable(d: Dpb, v: nat)
    requires d.Valid() && (v in {FREE, LONG_BAD, LONG_LAST_CLUSTER} || 2 <= v <= d.MaxCluster())
    ensures Canon(d.Kind(), v) == v
  {
    hide Canon, PowerUpTo256, Fits;
    StorableCanon(d.Kind(), v);
  }

  /** What `next_cluster` returns on a FAT when nothing fails. */
  function Next(fat: seq<nat>, c: nat): nat {
    if !(2 <= c < |fat|) then 1
    else
      var candidate := fat[c];
      if candidate < 2 || candidate >= LONG_BAD then candidate
      else if candidate >= |fat| then 1
      else
        var following := fat[candidate];
        if following < 2 || |fat| <= following < LONG_BAD then 1 else candidate
  }

  /** The next cluster, by the fields of `struct dpb` and the bytes of the disk. */
  lemma NextPlainly(d: Dpb, l: map<Block, Sector>, c: nat)
    requires d.Valid()
    ensures d.secsize > 0
    ensures var max := if d.fatsize == 0 then d.xsize else d.size;
            Next(d.Fat(l), c) ==
            if !(2 <= c <= max) then 1
            else
              var v := d.EntryOf(l, c);
              if v < 2 || v >= 0x0FFF_FFF7 then v
              else if v > max || d.EntryOf(l, v) in {0, 1} || max < d.EntryOf(l, v) < 0x0FFF_FFF7 then 1
              else v
  {
    KindIs(d);
    if 2 <= c <= d.MaxCluster() {
      EntryBytes(d, l, c);
      if 2 <= d.EntryOf(l, c) <= d.MaxCluster() {
        EntryBytes(d, l, d.EntryOf(l, c));
      }
    }
    hide Dpb.Valid, Dpb.EntryOf, Dpb.Fat;
  }

  /** A mounted volume: its parameters, its cache and the changing part of its `struct dpb`. */
  class Volume {
    const dpb: Dpb
    const cache: BufferCache
    /** `dpb_cluster` or, for FAT32, `dpb_xcluster`: where to look for free clusters. */
    var hint: nat
    /** `dpb_nfreeclst` or `dpb_xnfreeclst`: the number of free clusters, if known. */
    var nfree: nat
    /** The FAT after every write to it so far, in order. */
    ghost var log: seq<seq<nat>>

    ghost predicate Mounted()
      reads this, cache
    {
      && dpb.Valid() && dpb.secsize == cache.secsize && |cache.ring| >= 2 && cache.reliableWrites
      && dpb.unit in cache.geometry
      && cache.geometry[dpb.unit] == FatArea(dpb.FatStart(), dpb.FatSectors(), dpb.Copies())
    }

    ghost predicate Valid()
      reads this, cache
    {
      Mounted() && cache.Valid() && MirrorsFollow(cache.geometry, cache.State())
    }

    /** Neither the free count nor a place to search from is known yet. */
    constructor (dpb: Dpb, cache: BufferCache)
      ensures this.dpb == dpb && this.cache == cache
      ensures hint == UNKNCLUSTER == 0
      ensures nfree == dpb.UnknownFree() == if dpb.fatsize == 0 then 0xFFFF_FFFF else 0xFFFF
    {
      this.dpb, this.cache, hint, nfree := dpb, cache, UNKNCLUSTER, dpb.UnknownFree();
      log := [];
    }

    /** `getFATblock`: a buffer with a FAT sector, tagged as such. */
    method GetFatBlock(num: nat) returns (ok: bool, bp: nat)
      requires Valid() && dpb.InFat(Block(dpb.unit, num))
      modifies cache
      ensures Valid() && cache.logical == old(cache.logical) && |cache.ring| == |old(cache.ring)|
      ensures !ok ==> !cache.reliableReads
      ensures Block(dpb.unit, num) in cache.logical
      ensures ok ==>
                && bp == cache.first && bp in cache.ring && bp < |cache.bufs|
                && Holds(cache.bufs[bp], Block(dpb.unit, num))
      ensures ok ==>
                var x := cache.bufs[bp];
                x.fat && !x.uncache && x.data == cache.logical[x.key] && |x.data| == dpb.secsize
      ensures forall i :: i in cache.ring <==> i in old(cache.ring)
      ensures |cache.bufs| == |old(cache.bufs)|
      ensures forall i :: i in cache.ring && i != cache.first ==>
                i < |cache.bufs| && cache.bufs[i] == old(cache.bufs)[i]
      ensures old(var x := cache.first;
                  x < |cache.bufs| && !cache.bufs[x].uncache && !Holds(cache.bufs[x], Block(dpb.unit, num))) ==>
                cache.first != old(cache.first)
    {
      hide *;
      MountedParts();
      var b := Block(dpb.unit, num);
      cache.Members();
      FatSectorExists(dpb, cache.geometry, cache.secsize, cache.State(), b);
      ghost var order, k := cache.ring, 0;
      ok, bp, k := cache.GetBlk(b, false);
      FrontedElements(order, k);
      cache.ValidIs();
      Remounted();
      if ok {
        HoldsParts(cache.bufs[bp], b);
        cache.TagFat(bp);
        cache.ValidIs();
        Remounted();
        CoherentBounds(cache.geometry, cache.secsize, cache.State(), {}, bp);
        TaggedData(cache.geometry, cache.secsize, cache.State(), cache.bufs[bp], b);
      }
    }

    lemma MountedParts()
      requires Valid()
      ensures Mounted() && dpb.Valid() && dpb.secsize == cache.secsize && |cache.ring| >= 2 && cache.reliableWrites
      ensures dpb.unit in cache.geometry
      ensures cache.geometry[dpb.unit] == FatArea(dpb.FatStart(), dpb.FatSectors(), dpb.Copies())
      ensures cache.Valid() && MirrorsFollow(cache.geometry, cache.State())
      ensures cache.RingOk() && Coherent(cache.geometry, cache.secsize, cache.State(), {})
      ensures cache.State() == View(cache.disk, cache.bufs, cache.ring, cache.logical)
    {
    }

    lemma Remounted()
      requires dpb.Valid() && dpb.secsize == cache.secsize && |cache.ring| >= 2 && cache.reliableWrites
      requires dpb.unit in cache.geometry
      requires cache.geometry[dpb.unit] == FatArea(dpb.FatStart(), dpb.FatSectors(), dpb.Copies())
      requires cache.Valid() && MirrorsFollow(cache.geometry, cache.State())
      ensures Valid()
    {
    }

    ghost function Image(): (r: seq<byte>)
      requires dpb.secsize > 0
      reads cache
      ensures |r| == dpb.FatSectors() * dpb.secsize
    {
      dpb.Image(cache.logical)
    }

    /** The buffer `bp` holds sector `q` of the FAT. */
    ghost predicate FatBuffer(bp: nat, q: nat)
      reads this, cache
    {
      && bp in cache.ring && bp < |cache.bufs| && q < dpb.FatSectors()
      && Holds(cache.bufs[bp], Block(dpb.unit, dpb.FatStart() + q)) && cache.bufs[bp].fat
      && var x := cache.bufs[bp]; x.key in cache.logical && x.data == cache.logical[x.key] && |x.data| == dpb.secsize
    }

    /** Changes one byte of a FAT buffer. */
    method StoreByte(bp: nat, q: nat, i: nat, x: byte, ghost o: nat)
      requires dpb.secsize > 0 && o < |Image()| && i < dpb.secsize && o == q * dpb.secsize + i
      requires Valid() && FatBuffer(bp, q)
      modifies cache
      ensures Image() == old(Image())[o := x]
      ensures Rest() == old(Rest())
      ensures Valid() && FatBuffer(bp, q) && cache.ring == old(cache.ring) && |cache.bufs| == |old(cache.bufs)|
      ensures forall p: nat, k: nat :: p != bp && old(FatBuffer(p, k)) && k != q ==> FatBuffer(p, k)
    {
      hide Coherent, MirrorsFollow, Linked, IsMirror;
      ghost var v := cache.State();
      FatSectorExists(dpb, cache.geometry, cache.secsize, v, cache.bufs[bp].key);
      ByteStored(dpb, cache.logical, q, i, x);
      PendingCoherent(cache.geometry, cache.secsize, v, cache.bufs[bp].key);
      cache.Store(bp, Put(cache.bufs[bp].data, i, x));
    }

    /** The buffer with a FAT sector that holds a whole entry. */
    method FetchSector(q: nat) returns (ok: bool, bp: nat)
      requires Valid() && q < dpb.FatSectors()
      modifies cache
      ensures Valid() && cache.logical == old(cache.logical) && dpb.secsize > 0
      ensures Image() == old(Image()) && Rest() == old(Rest())
      ensures !ok ==> !cache.reliableReads
      ensures ok ==> FatBuffer(bp, q)
    {
      hide MirrorsFollow, Coherent, Linked, IsMirror;
      ok, bp := GetFatBlock(dpb.FatStart() + q);
    }

    lemma ValidParts()
      requires Valid()
      ensures dpb.Valid() && dpb.secsize > 0
    {
    }

    /** The buffers with both bytes of a 12-bit entry; when it straddles two sectors they are
        two different buffers, resident at the same time. */
    method Fetch12(q: nat, idx: nat) returns (ok: bool, bp: nat, bp1: nat, q1: nat, idx1: nat)
      requires Valid() && q < dpb.FatSectors() && idx < dpb.secsize
      requires q * dpb.secsize + idx + 1 < dpb.FatSectors() * dpb.secsize
      modifies cache
      ensures Valid() && cache.logical == old(cache.logical) && dpb.secsize > 0
      ensures Image() == old(Image()) && Rest() == old(Rest())
      ensures !ok ==> !cache.reliableReads
      ensures ok ==> FatBuffer(bp, q) && FatBuffer(bp1, q1) && (q1 != q ==> bp1 != bp) && (q1 == q ==> bp1 == bp)
      ensures idx1 < dpb.secsize && q1 < dpb.FatSectors() && q1 * dpb.secsize + idx1 == q * dpb.secsize + idx + 1
    {
      hide MirrorsFollow, Coherent, Linked, IsMirror;
      bp1, q1, idx1 := 0, q, idx + 1;
      if idx >= dpb.secsize - 1 {
        q1, idx1 := q + 1, 0;
        NextSector(q, idx, dpb.secsize, dpb.FatSectors());
      }
      ok, bp := GetFatBlock(dpb.FatStart() + q);
      if !ok {
        return;
      }
      bp1 := bp;
      if q1 != q {
        ok, bp1 := GetFatBlock(dpb.FatStart() + q1);
      }
    }

    /** The two byte stores of `link_fat` for 12 and 16 bits. */
    method StoreWord(bp: nat, q: nat, i: nat, bp1: nat, q1: nat, i1: nat, w: nat, ghost o: nat)
      requires dpb.secsize > 0 && o + 1 < |Image()| && i < dpb.secsize && i1 < dpb.secsize && w < 0x1_0000
      requires o == q * dpb.secsize + i && o + 1 == q1 * dpb.secsize + i1
      requires Valid() && FatBuffer(bp, q) && FatBuffer(bp1, q1) && (q1 == q <==> bp1 == bp)
      modifies cache
      ensures Valid() && Rest() == old(Rest())
      ensures Image() == old(Image())[o := w % 256][o + 1 := w / 256]
      ensures FatBuffer(bp, q)
    {
      hide MirrorsFollow, Coherent, Linked, IsMirror;
      StoreByte(bp, q, i, w % 256, o);
      StoreByte(bp1, q1, i1, w / 256, o + 1);
    }

    /** The word at the two bytes. */
    method FetchWord(bp: nat, q: nat, i: nat, bp1: nat, q1: nat, i1: nat, ghost o: nat) returns (w: nat)
      requires dpb.secsize > 0 && o + 1 < |Image()| && i < dpb.secsize && i1 < dpb.secsize
      requires o == q * dpb.secsize + i && o + 1 == q1 * dpb.secsize + i1
      requires Valid() && FatBuffer(bp, q) && FatBuffer(bp1, q1)
      ensures w < 0x1_0000 && w == Word(Image()[o], Image()[o + 1])
    {
      hide MirrorsFollow, Coherent, Linked, IsMirror;
      ByteAt(dpb, cache.logical, q, i);
      ByteAt(dpb, cache.logical, q1, i1);
      w := Word(cache.bufs[bp].data[i], cache.bufs[bp1].data[i1]);
    }

    /** `link_fat` for 12 bits, from the sector and byte of the entry on. */
    method Link12(q: nat, idx: nat, c1: nat, c2: nat) returns (ok: bool, r: nat, wasfree: bool)
      requires Valid() && dpb.Kind() == Fat12 && Fits(Fat12, dpb.FatSectors() * dpb.secsize, c1)
      requires q < dpb.FatSectors() && idx < dpb.secsize && q * dpb.secsize + idx == Offset(Fat12, c1)
      modifies cache
      ensures Valid() && Rest() == old(Rest())
      ensures !ok ==> !cache.reliableReads && cache.logical == old(cache.logical)
      ensures ok && c2 % 0x1_0000 == READ_CLUSTER ==>
                cache.logical == old(cache.logical) && r == Read(Fat12, old(Image()), c1)
      ensures ok && c2 % 0x1_0000 != READ_CLUSTER ==>
                Image() == Write(Fat12, old(Image()), c1, c2) && (wasfree <==> Read(Fat12, old(Image()), c1) == FREE)
    {
      hide *;
      EndMarks();
      ValidParts();
      Entry12(Image(), c1, c2 % 0x1000);
      var bp, bp1, q1, idx1;
      r, wasfree := 1, false;
      ok, bp, bp1, q1, idx1 := Fetch12(q, idx);
      if !ok {
        return;
      }
      var cluster := FetchWord(bp, q, idx, bp1, q1, idx1, Offset(Fat12, c1));
      var res := Unpack12(c1, cluster);
      if c2 % 0x1_0000 == READ_CLUSTER {
        r := Decode(Fat12, res);
        return;
      }
      wasfree := res == FREE;
      Pack12Word(c1, cluster, c2 % 0x1000);
      StoreWord(bp, q, idx, bp1, q1, idx1, Pack12(c1, cluster, c2 % 0x1000), Offset(Fat12, c1));
    }

    /** `link_fat` for 16 bits. */
    method Link16(q: nat, idx: nat, c1: nat, c2: nat) returns (ok: bool, r: nat, wasfree: bool)
      requires Valid() && dpb.Kind() == Fat16 && Fits(Fat16, dpb.FatSectors() * dpb.secsize, c1)
      requires q < dpb.FatSectors() && idx + 2 <= dpb.secsize && q * dpb.secsize + idx == Offset(Fat16, c1)
      modifies cache
      ensures Valid() && Rest() == old(Rest())
      ensures !ok ==> !cache.reliableReads && cache.logical == old(cache.logical)
      ensures ok && c2 % 0x1_0000 == READ_CLUSTER ==>
                cache.logical == old(cache.logical) && r == Read(Fat16, old(Image()), c1)
      ensures ok && c2 % 0x1_0000 != READ_CLUSTER ==>
                Image() == Write(Fat16, old(Image()), c1, c2) && (wasfree <==> Read(Fat16, old(Image()), c1) == FREE)
    {
      hide *;
      EndMarks();
      ValidParts();
      Entry16(Image(), c1, c2 % 0x1_0000);
      var bp;
      r, wasfree := 1, false;
      ok, bp := FetchSector(q);
      if !ok {
        return;
      }
      var res := FetchWord(bp, q, idx, bp, q, idx + 1, Offset(Fat16, c1));
      if c2 % 0x1_0000 == READ_CLUSTER {
        r := Decode(Fat16, res);
        return;
      }
      StoreWord(bp, q, idx, bp, q, idx + 1, c2 % 0x1_0000, Offset(Fat16, c1));
      wasfree := res == FREE;
    }

    /** `fgetlong` and `fputlong` in a FAT buffer. */
    method FetchLong(bp: nat, q: nat, i: nat, ghost o: nat) returns (x: nat)
      requires dpb.secsize > 0 && i + 4 <= dpb.secsize && o == q * dpb.secsize + i && o + 4 <= |Image()|
      requires Valid() && FatBuffer(bp, q)
      ensures x == Long(Image()[o], Image()[o + 1], Image()[o + 2], Image()[o + 3])
    {
      hide MirrorsFollow, Coherent, Linked, IsMirror, InPrimary;
      var low := FetchWord(bp, q, i, bp, q, i + 1, o);
      var high := FetchWord(bp, q, i + 2, bp, q, i + 3, o + 2);
      x := low + 0x1_0000 * high;
    }

    method StoreLong(bp: nat, q: nat, i: nat, x: nat, ghost o: nat)
      requires dpb.secsize > 0 && i + 4 <= dpb.secsize && o == q * dpb.secsize + i && o + 4 <= |Image()|
      requires x < 0x1000_0000
      requires Valid() && FatBuffer(bp, q)
      modifies cache
      ensures Valid() && Rest() == old(Rest())
      ensures Image() ==
              old(Image())[o := x % 256][o + 1 := x / 256 % 256][o + 2 := x / 0x1_0000 % 256][o + 3 := x / 0x100_0000]
    {
      hide MirrorsFollow, Coherent, Linked, IsMirror, InPrimary;
      LongWords(x);
      StoreWord(bp, q, i, bp, q, i + 1, x % 0x1_0000, o);
      StoreWord(bp, q, i + 2, bp, q, i + 3, x / 0x1_0000, o + 2);
    }

    /** `link_fat` for 32 bits. */
    method Link32(q: nat, idx: nat, c1: nat, c2: nat) returns (ok: bool, r: nat, wasfree: bool)
      requires Valid() && dpb.Kind() == Fat32 && Fits(Fat32, dpb.FatSectors() * dpb.secsize, c1)
      requires q < dpb.FatSectors() && idx + 4 <= dpb.secsize && q * dpb.secsize + idx == Offset(Fat32, c1)
      modifies cache
      ensures Valid() && Rest() == old(Rest())
      ensures !ok ==> !cache.reliableReads && cache.logical == old(cache.logical)
      ensures ok && c2 == READ_CLUSTER ==> cache.logical == old(cache.logical) && r == Read(Fat32, old(Image()), c1)
      ensures ok && c2 != READ_CLUSTER ==>
                Image() == Write(Fat32, old(Image()), c1, c2) && (wasfree <==> Read(Fat32, old(Image()), c1) == FREE)
    {
      hide *;
      EndMarks();
      ValidParts();
      Entry32(Image(), c1, c2 % 0x1000_0000);
      var bp;
      r, wasfree := 1, false;
      ok, bp := FetchSector(q);
      if !ok {
        return;
      }
      var long := FetchLong(bp, q, idx, Offset(Fat32, c1));
      var res := long % 0x1000_0000;
      if c2 == READ_CLUSTER {
        r := Decode(Fat32, long);
        return;
      }
      StoreLong(bp, q, idx, c2 % 0x1000_0000, Offset(Fat32, c1));
      wasfree := res == FREE;
    }

    ghost function Fat(): (fat: seq<nat>)
      requires dpb.Valid()
      reads cache
      ensures |fat| == dpb.MaxCluster() + 1
    {
      dpb.Fat(cache.logical)
    }

    ghost function Rest(): map<Block, Sector>
      reads cache
    {
      dpb.Rest(cache.logical)
    }

    /** The free count is not known or right. */
    ghost predicate FreeRight()
      requires dpb.Valid()
      reads this, cache
    {
      FreeRightFor(Fat(), nfree)
    }

    ghost predicate FreeRightFor(fat: seq<nat>, n: nat) {
      n == dpb.UnknownFree() || n == FreeCount(fat)
    }

    /** The search hint is unset or the number of a cluster. */
    predicate HintOk()
      reads this
    {
      hint == UNKNCLUSTER || 2 <= hint <= dpb.MaxCluster()
    }

    predicate InRange(c: nat) {
      2 <= c <= dpb.MaxCluster()
    }

    /** The value of `Cluster2` that asks `link_fat` to read; 12 and 16 bits look at its low word only. */
    predicate AsksRead(c2: nat) {
      if dpb.IsFat32() then c2 == READ_CLUSTER else c2 % 0x1_0000 == READ_CLUSTER
    }

    /** The dispatch of `link_fat` on the kind of FAT, after its range checks. */
    method LinkBytes(c1: nat, c2: nat) returns (ok: bool, r: nat, wasfree: bool)
      requires Valid() && InRange(c1) && Fits(dpb.Kind(), dpb.FatSectors() * dpb.secsize, c1)
      modifies cache
      ensures Valid() && Rest() == old(Rest())
      ensures !ok ==> !cache.reliableReads && cache.logical == old(cache.logical)
      ensures ok && AsksRead(c2) ==> cache.logical == old(cache.logical) && r == Read(dpb.Kind(), old(Image()), c1)
      ensures ok && !AsksRead(c2) ==> Image() == Write(dpb.Kind(), old(Image()), c1, c2)
                                      && (wasfree <==> Read(dpb.Kind(), old(Image()), c1) == FREE)
    {
      hide MirrorsFollow, Coherent, Linked, IsMirror, InPrimary, Read, Raw, Write;
      var q, idx := dpb.Locate(c1);
      if dpb.IsFat12() {
        ok, r, wasfree := Link12(q, idx, c1, c2);
      } else if dpb.IsFat16() {
        ok, r, wasfree := Link16(q, idx, c1, c2);
      } else {
        ok, r, wasfree := Link32(q, idx, c1, c2);
      }
    }

    /** The same on the array of cluster numbers. */
    method LinkEntry(c1: nat, c2: nat) returns (ok: bool, r: nat, wasfree: bool)
      requires Valid() && InRange(c1)
      modifies cache
      ensures Valid() && Rest() == old(Rest())
      ensures !ok ==> !cache.reliableReads && cache.logical == old(cache.logical)
      ensures ok && AsksRead(c2) ==> cache.logical == old(cache.logical) && r == old(Fat())[c1]
      ensures ok && !AsksRead(c2) ==>
                Fat() == old(Fat())[c1 := Canon(dpb.Kind(), c2)] && (wasfree <==> old(Fat())[c1] == FREE)
      ensures ok && !AsksRead(c2) ==> dpb.secsize > 0 && dpb.Rewritten(old(cache.logical), cache.logical, c1, c2)
    {
      hide MirrorsFollow, Coherent, Linked, IsMirror, InPrimary, Canon, Read, Write, Dpb.Rewritten, Dpb.OnDisk;
      ghost var l := cache.logical;
      FatEntry(dpb, l, c1);
      FatThere();
      ok, r, wasfree := LinkBytes(c1, c2);
      if ok && !AsksRead(c2) {
        FatThere();
        EntryWritten(dpb, l, cache.logical, c1, c2);
        Rewrote(dpb, l, cache.logical, c1, c2);
      }
    }

    lemma FatThere()
      requires Valid()
      ensures dpb.OnDisk(cache.logical)
    {
      hide *;
      MountedParts();
      forall b | dpb.InFat(b) ensures b in cache.logical && |cache.logical[b]| == dpb.secsize {
        FatSectorExists(dpb, cache.geometry, cache.secsize, cache.State(), b);
      }
      OnDiskIs(dpb, cache.logical);
    }

    /** What `link_fat` did, by the fields of `struct dpb` and the bytes of the disk alone. */
    ghost predicate LinkDone(l: map<Block, Sector>, l': map<Block, Sector>, c1: nat, c2: nat, r: nat, failed: bool)
      requires dpb.secsize > 0
    {
      var max := if dpb.fatsize == 0 then dpb.xsize else dpb.size;
      if !(2 <= c1 <= max) || max < c2 < 0x0FFF_FFF7 then r == 1 && l' == l
      else if r == 1 && failed then l' == l
      else if c2 == 1 || (dpb.fatsize != 0 && c2 % 0x1_0000 == 1) then r == dpb.EntryOf(l, c1) && l' == l
      else r == 0 && dpb.Rewritten(l, l', c1, c2)
    }

    /** `link_fat`: reads the entry of `c1`, or writes `c2` to it and keeps the free count. */
    method LinkFat(c1: nat, c2: nat) returns (r: nat)
      requires Valid()
      modifies this`nfree, this`log, cache
      ensures Valid() && Rest() == old(Rest())
      ensures !InRange(c1) || dpb.MaxCluster() < c2 < LONG_BAD ==>
                r == 1 && cache.logical == old(cache.logical) && nfree == old(nfree) && log == old(log)
      ensures InRange(c1) && AsksRead(c2) && !(dpb.MaxCluster() < c2 < LONG_BAD) ==>
                && cache.logical == old(cache.logical) && nfree == old(nfree) && log == old(log)
                && (r == Fat()[c1] || (r == 1 && !cache.reliableReads))
      ensures InRange(c1) && !AsksRead(c2) && !(dpb.MaxCluster() < c2 < LONG_BAD) ==>
                || (&& r == SUCCESS && Fat() == old(Fat())[c1 := Canon(dpb.Kind(), c2)] && log == old(log) + [Fat()])
                || (&& r == 1 && !cache.reliableReads && cache.logical == old(cache.logical) && nfree == old(nfree)
                    && log == old(log))
      ensures dpb.secsize > 0 && LinkDone(old(cache.logical), cache.logical, c1, c2, r, !cache.reliableReads)
      ensures old(FreeRight()) && (c2 != FREE ==> Canon(dpb.Kind(), c2) != FREE) ==> FreeRight()
      ensures old(FreeRight()) && InRange(c1) && !AsksRead(c2) && r == SUCCESS
              && !(dpb.MaxCluster() < c2 < LONG_BAD) ==>
                (FreeRight() <==> old(nfree) == dpb.UnknownFree() || (c2 != FREE ==> Canon(dpb.Kind(), c2) != FREE))
    {
      hide MirrorsFollow, Coherent, Linked, IsMirror, InPrimary, Decode, Canon, Recount, FreeCount, Dpb.Fat, Dpb.Rest,
        Dpb.Rewritten, Dpb.EntryOf;
      if InRange(c1) {
        EntryBytes(dpb, cache.logical, c1);
      }
      if !InRange(c1) || dpb.MaxCluster() < c2 < LONG_BAD {
        return 1;
      }
      var ok, v, wasfree := LinkEntry(c1, c2);
      if !ok {
        return 1;
      }
      if AsksRead(c2) {
        return v;
      }
      log := log + [Fat()];
      if FreeRightFor(old(Fat()), nfree) {
        CountKept(dpb, old(Fat()), c1, c2, wasfree, nfree);
      }
      nfree := Recount(nfree, dpb.UnknownFree(), wasfree, c2);
      r := SUCCESS;
    }

    /** A write by `link_fat` of one of the values the kernel writes. */
    method Link(c: nat, v: nat) returns (ok: bool)
      requires Valid() && InRange(c) && (v == FREE || v == LONG_LAST_CLUSTER || InRange(v))
      modifies this`nfree, this`log, cache
      ensures Valid() && Rest() == old(Rest()) && (old(FreeRight()) ==> FreeRight())
      ensures ok ==> Fat() == old(Fat())[c := v] && log == old(log) + [Fat()]
      ensures !ok ==>
                cache.logical == old(cache.logical) && log == old(log) && nfree == old(nfree) && !cache.reliableReads
    {
      CanonStorable(dpb, v);
      LinkWrites(dpb, v);
      hide Volume.Valid, Canon, Dpb.Fat;
      var r := LinkFat(c, v);
      ok := r == SUCCESS;
    }

    lemma LinkWrites(d: Dpb, v: nat)
      requires d.Valid() && (v == FREE || v == LONG_LAST_CLUSTER || 2 <= v <= d.MaxCluster())
      ensures if d.IsFat32() then v != READ_CLUSTER else v % 0x1_0000 != READ_CLUSTER
    {
    }

    /** `next_cluster`: the next cluster of the chain, LONG_LAST_CLUSTER at its end, 0 where there is
        none, 1 where the chain would run into a free or impossible entry. */
    method NextCluster(c: nat) returns (r: nat)
      requires Valid()
      modifies this`nfree, this`log, cache
      ensures Valid() && cache.logical == old(cache.logical) && nfree == old(nfree) && log == old(log)
      ensures r == Next(Fat(), c) || (r == 1 && !cache.reliableReads)
    {
      hide MirrorsFollow, Coherent, Linked, IsMirror, InPrimary, Decode;
      r := LinkFat(c, READ_CLUSTER);
      if r < 2 || r >= LONG_BAD {
        return;
      }
      var following := LinkFat(r, READ_CLUSTER);
      if following < 2 || dpb.MaxCluster() < following < LONG_BAD {
        r := 1;
      }
    }

    /** `is_free_cluster` */
    method IsFreeCluster(c: nat) returns (free: bool)
      requires Valid()
      modifies this`nfree, this`log, cache
      ensures Valid() && cache.logical == old(cache.logical) && nfree == old(nfree) && log == old(log)
      ensures free ==> InRange(c) && Fat()[c] == FREE
      ensures !free && InRange(c) && cache.reliableReads ==> Fat()[c] != FREE
    {
      hide MirrorsFollow, Coherent, Linked, IsMirror, InPrimary, Decode;
      var r := LinkFat(c, READ_CLUSTER);
      free := r == FREE;
    }

    /** The range checks of `read_fsinfo` on the free count and hint found on a FAT32 disk. */
    method ReadFsInfo(freeOnDisk: nat, hintOnDisk: nat)
      requires dpb.IsFat32()
      modifies this`nfree, this`hint
      ensures HintOk() && (nfree < dpb.xsize || nfree == dpb.UnknownFree() == 0xFFFF_FFFF)
      ensures nfree == if freeOnDisk < dpb.xsize then freeOnDisk else 0xFFFF_FFFF
      ensures hint == if 2 <= hintOnDisk <= dpb.xsize then hintOnDisk else 0
    {
      nfree := if freeOnDisk >= dpb.xsize then 0xFFFF_FFFF else freeOnDisk;
      hint := if hintOnDisk < 2 || hintOnDisk > dpb.xsize then UNKNCLUSTER else hintOnDisk;
    }
  }
}
