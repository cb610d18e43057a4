/** Files as byte sequences: which sector of the data area holds which byte of a file,
    and what writing a sector or a run of sectors does to the bytes. */
module FileData {
  import opened Arith
  import opened BlockIo
  import opened FatTable
  import opened FatFiles

  type Disk = map<Block, Sector>

  /** `clus2phys`: first sector of a cluster. */
  function Clus2Phys(d: Dpb, c: nat): int {
    (c - 2) * d.spc + d.DataStart()
  }

  /** Sector `q` of the file with clusters `cs`. */
  function FileBlock(d: Dpb, cs: seq<nat>, q: nat): Block
    requires d.spc > 0 && q / d.spc < |cs| && cs[q / d.spc] >= 2
  {
    PhysNat(d, cs[q / d.spc]);
    Block(d.unit, Clus2Phys(d, cs[q / d.spc]) + q % d.spc)
  }

  lemma PhysNat(d: Dpb, c: nat)
    requires c >= 2
    ensures Clus2Phys(d, c) >= d.DataStart()
  {
    MulMono(0, c - 2, d.spc);
  }

  ghost predicate Clusters(cs: seq<nat>) {
    && (forall i :: 0 <= i < |cs| ==> cs[i] >= 2)
    && (forall i, j :: 0 <= i < j < |cs| ==> cs[i] != cs[j])
  }

  /** Byte `i` of that file. */
  function FileByte(d: Dpb, l: Disk, cs: seq<nat>, i: nat): byte
    requires d.spc > 0 && d.secsize > 0 && Rel(d, i) < |cs| && cs[Rel(d, i)] >= 2
  {
    var b := FileBlock(d, cs, i / d.secsize);
    if b in l && i % d.secsize < |l[b]| then l[b][i % d.secsize] else 0
  }

  /** Where byte `i` of a file with clusters `cs` is on the disk, by the fields of `struct dpb`. */
  ghost predicate ByteIsAt(d: Dpb, cs: seq<nat>, i: nat, num: int, k: nat)
    requires d.spc > 0 && d.secsize > 0
  {
    var j := i / (d.secsize * d.spc);
    && j < |cs| && k == i % d.secsize
    && num == (if d.fatsize == 0 then d.xdata else d.data) + (cs[j] - 2) * d.spc + i / d.secsize % d.spc
  }

  lemma BytePlace(d: Dpb, l: Disk, cs: seq<nat>, i: nat)
    requires d.Valid() && Clusters(cs) && i / (d.secsize * d.spc) < |cs|
    ensures Rel(d, i) < |cs|
    ensures var b := FileBlock(d, cs, i / d.secsize);
            && b.unit == d.unit && ByteIsAt(d, cs, i, b.num, i % d.secsize)
            && (b in l && |l[b]| == d.secsize ==> FileByte(d, l, cs, i) == l[b][i % d.secsize])
  {
    hide Dpb.Valid;
    SizesPositive(d);
    TwoDivisions(i, d.secsize, d.spc);
  }

  lemma SizesPositive(d: Dpb)
    requires d.Valid()
    ensures d.secsize > 0 && d.spc > 0
  {
  }

  lemma TwoDivisions(i: nat, s: nat, p: nat)
    requires s > 0 && p > 0
    ensures s * p > 0 && i / s / p == i / (s * p)
  {
    hide *;
    var q, z := i / s, s * p;
    IntParts(i, s);
    IntParts(q, p);
    MulMono(1, s, p);
    MulMono(q % p + 1, p, s);
    MulStep(q % p, s);
    Commute(p, s);
    Distribute(q / p * p, q % p, s);
    Reassociate(q / p, p, s);
    var r := q % p * s + i % s;
    assert 0 <= r < z by { MulMono(0, q % p, s); }
    assert i == q / p * z + r;
    DivModUnique(i, z, q / p, r);
  }

  /** The cluster that a sector of the data area belongs to. */
  function ClusterOf(d: Dpb, b: Block): int
    requires d.spc > 0
  {
    2 + (b.num - d.DataStart()) / d.spc
  }

  /** A sector of one of the clusters `cs`. */
  predicate InClusters(d: Dpb, cs: seq<nat>, b: Block)
    requires d.spc > 0
  {
    b.unit == d.unit && b.num >= d.DataStart() && ClusterOf(d, b) >= 2 && ClusterOf(d, b) in cs
  }

  lemma BlockCluster(d: Dpb, cs: seq<nat>, q: nat)
    requires d.spc > 0 && q / d.spc < |cs| && cs[q / d.spc] >= 2
    ensures var b := FileBlock(d, cs, q);
            && b.unit == d.unit && b.num >= d.DataStart() && ClusterOf(d, b) == cs[q / d.spc]
            && (b.num - d.DataStart()) % d.spc == q % d.spc && InClusters(d, cs, b)
  {
    var c, b := cs[q / d.spc], FileBlock(d, cs, q);
    PhysNat(d, c);
    DivModUnique(b.num - d.DataStart(), d.spc, c - 2, q % d.spc);
    assert c in cs;
  }

  /** Different sectors of a file are different sectors of the disk. */
  lemma BlockInjective(d: Dpb, cs: seq<nat>, p: nat, q: nat)
    requires d.spc > 0 && Clusters(cs) && p / d.spc < |cs| && q / d.spc < |cs|
    requires FileBlock(d, cs, p) == FileBlock(d, cs, q)
    ensures p == q
  {
    hide *;
    ClusterNumbers(cs, p / d.spc, q / d.spc);
    BlockCluster(d, cs, p);
    BlockCluster(d, cs, q);
    IntParts(p, d.spc);
    IntParts(q, d.spc);
  }

  lemma ClusterNumbers(cs: seq<nat>, i: nat, j: nat)
    requires Clusters(cs) && i < |cs| && j < |cs|
    ensures cs[i] >= 2 && cs[j] >= 2 && (cs[i] == cs[j] ==> i == j)
  {
  }

  /** Sectors outside the clusters `cs` are as before. */
  ghost predicate RestKept(d: Dpb, r0: Disk, r1: Disk, cs: seq<nat>)
    requires d.spc > 0
  {
    r1.Keys == r0.Keys && forall b :: b in r0 && !InClusters(d, cs, b) ==> r1[b] == r0[b]
  }

  /** The file with clusters `cs` reads on `r1` as on `r0`, but for `bytes` from offset `at` on. */
  ghost predicate ByteSpliced(d: Dpb, r0: Disk, r1: Disk, cs: seq<nat>, at: nat, bytes: seq<byte>)
    requires d.spc > 0 && d.secsize > 0 && Clusters(cs)
  {
    forall i: nat :: Rel(d, i) < |cs| ==>
      FileByte(d, r1, cs, i) == if at <= i < at + |bytes| then bytes[i - at] else FileByte(d, r0, cs, i)
  }

  /** `s` with `bytes` from byte `boff` on. */
  function Overlay(s: Sector, boff: nat, bytes: seq<byte>): (r: Sector)
    requires boff + |bytes| <= |s|
    ensures |r| == |s|
    ensures forall k :: 0 <= k < |s| ==> r[k] == if boff <= k < boff + |bytes| then bytes[k - boff] else s[k]
  {
    s[..boff] + bytes + s[boff + |bytes|..]
  }

  /** Where a byte of sector `q` is in the file. */
  lemma ByteInSector(s: nat, q: nat, k: nat)
    requires s > 0 && k < s
    ensures (q * s + k) / s == q && (q * s + k) % s == k
  {
    DivModUnique(q * s + k, s, q, k);
  }

  lemma SameSector(s: nat, q: nat, i: nat, boff: nat, n: nat)
    requires s > 0 && boff + n <= s
    ensures q * s + boff <= i < q * s + boff + n <==> i / s == q && boff <= i % s < boff + n
    ensures i / s == q ==> i == q * s + i % s
  {
    assert i == i / s * s + i % s;
    if i / s == q {
    } else if i / s < q {
      MulMono(i / s + 1, q, s);
      MulStep(i / s, s);
    } else {
      MulMono(q + 1, i / s, s);
      MulStep(q, s);
    }
  }

  /** Bytes written into one sector of a file are bytes written into the file. */
  lemma SectorWritten(d: Dpb, r0: Disk, cs: seq<nat>, q: nat, boff: nat, bytes: seq<byte>)
    requires d.spc > 0 && d.secsize > 0 && Clusters(cs) && q / d.spc < |cs|
    requires var b := FileBlock(d, cs, q); b in r0 && |r0[b]| == d.secsize
    requires boff + |bytes| <= d.secsize
    ensures var b := FileBlock(d, cs, q);
            var r1 := r0[b := Overlay(r0[b], boff, bytes)];
            ByteSpliced(d, r0, r1, cs, q * d.secsize + boff, bytes) && RestKept(d, r0, r1, cs)
  {
    var b := FileBlock(d, cs, q);
    BlockCluster(d, cs, q);
    SplicedBySector(d, r0, r0[b := Overlay(r0[b], boff, bytes)], cs, q, b, boff, q * d.secsize + boff, bytes);
  }

  lemma SplicedBySector(d: Dpb, r0: Disk, r1: Disk, cs: seq<nat>, q: nat, b: Block, boff: nat, at: nat,
                        bytes: seq<byte>)
    requires d.spc > 0 && d.secsize > 0 && Clusters(cs) && SectorAt(d, cs, q, b) && at == q * d.secsize + boff
    requires b in r0 && |r0[b]| == d.secsize && boff + |bytes| <= d.secsize
    requires r1 == r0[b := Overlay(r0[b], boff, bytes)]
    ensures ByteSpliced(d, r0, r1, cs, at, bytes)
  {
    hide FileByte, Overlay, FileBlock;
    forall i: nat | Rel(d, i) < |cs|
      ensures FileByte(d, r1, cs, i) == if at <= i < at + |bytes| then bytes[i - at] else FileByte(d, r0, cs, i)
    {
      ByteWritten(d, r0, r1, cs, q, b, boff, at, bytes, i);
    }
  }

  lemma ByteWritten(d: Dpb, r0: Disk, r1: Disk, cs: seq<nat>, q: nat, b: Block, boff: nat, at: nat, bytes: seq<byte>,
                    i: nat)
    requires d.spc > 0 && d.secsize > 0 && Clusters(cs) && SectorAt(d, cs, q, b) && at == q * d.secsize + boff
    requires b in r0 && |r0[b]| == d.secsize && boff + |bytes| <= d.secsize
    requires Rel(d, i) < |cs| && r1 == r0[b := Overlay(r0[b], boff, bytes)]
    ensures FileByte(d, r1, cs, i) == if at <= i < at + |bytes| then bytes[i - at] else FileByte(d, r0, cs, i)
  {
    hide FileBlock, Overlay;
    SameSector(d.secsize, q, i, boff, |bytes|);
    if FileBlock(d, cs, i / d.secsize) == b {
      BlockInjective(d, cs, i / d.secsize, q);
    }
  }

  lemma SplicedTransitive(d: Dpb, r0: Disk, r1: Disk, r2: Disk, cs: seq<nat>, at: nat, b1: seq<byte>, next: nat,
                          b2: seq<byte>)
    requires d.spc > 0 && d.secsize > 0 && Clusters(cs)
    requires next == at + |b1| && ByteSpliced(d, r0, r1, cs, at, b1) && ByteSpliced(d, r1, r2, cs, next, b2)
    ensures ByteSpliced(d, r0, r2, cs, at, b1 + b2)
  {
  }

  lemma RestTransitive(d: Dpb, r0: Disk, r1: Disk, r2: Disk, cs: seq<nat>)
    requires d.spc > 0
    ensures RestKept(d, r0, r0, cs)
    ensures RestKept(d, r0, r1, cs) && RestKept(d, r1, r2, cs) ==> RestKept(d, r0, r2, cs)
  {
  }

  lemma NothingSpliced(d: Dpb, r0: Disk, cs: seq<nat>, at: nat)
    requires d.spc > 0 && d.secsize > 0 && Clusters(cs)
    ensures ByteSpliced(d, r0, r0, cs, at, []) && RestKept(d, r0, r0, cs)
  {
  }

  /** Bytes of clusters outside `cs` are as before. */
  lemma OtherBytes(d: Dpb, r0: Disk, r1: Disk, cs: seq<nat>, ds: seq<nat>, i: nat)
    requires d.spc > 0 && d.secsize > 0 && RestKept(d, r0, r1, cs)
    requires Rel(d, i) < |ds| && ds[Rel(d, i)] >= 2 && ds[Rel(d, i)] !in cs
    ensures FileByte(d, r1, ds, i) == FileByte(d, r0, ds, i)
  {
    BlockCluster(d, ds, i / d.secsize);
  }

  /** The same file seen through a chain that has grown. */
  lemma SplicedGrown(d: Dpb, r0: Disk, r1: Disk, cs: seq<nat>, grown: seq<nat>, at: nat, bytes: seq<byte>)
    requires d.spc > 0 && d.secsize > 0 && Clusters(cs) && Clusters(grown) && cs <= grown
    requires ByteSpliced(d, r0, r1, cs, at, bytes) && RestKept(d, r0, r1, cs)
    requires forall i: nat :: at <= i < at + |bytes| ==> Rel(d, i) < |cs|
    ensures ByteSpliced(d, r0, r1, grown, at, bytes) && RestKept(d, r0, r1, grown)
  {
    hide FileByte, Rel, InClusters;
    forall b | InClusters(d, cs, b) ensures InClusters(d, grown, b) {
      LargerFile(d, cs, grown, b);
    }
    forall i: nat | Rel(d, i) < |grown|
      ensures FileByte(d, r1, grown, i) == if at <= i < at + |bytes| then bytes[i - at] else FileByte(d, r0, grown, i)
    {
      ByteGrown(d, r0, r1, cs, grown, i);
    }
  }

  lemma LargerFile(d: Dpb, cs: seq<nat>, grown: seq<nat>, b: Block)
    requires d.spc > 0 && cs <= grown
    ensures InClusters(d, cs, b) ==> InClusters(d, grown, b)
  {
  }

  /** A byte of the clusters there were reads the same through the longer chain; one of a new cluster is as before. */
  lemma ByteGrown(d: Dpb, r0: Disk, r1: Disk, cs: seq<nat>, grown: seq<nat>, i: nat)
    requires d.spc > 0 && d.secsize > 0 && Clusters(cs) && Clusters(grown) && cs <= grown && Rel(d, i) < |grown|
    requires RestKept(d, r0, r1, cs)
    ensures grown[Rel(d, i)] >= 2
    ensures if Rel(d, i) < |cs|
            then cs[Rel(d, i)] >= 2 && FileByte(d, r1, grown, i) == FileByte(d, r1, cs, i)
            && FileByte(d, r0, grown, i) == FileByte(d, r0, cs, i)
            else FileByte(d, r1, grown, i) == FileByte(d, r0, grown, i)
  {
    hide RestKept, Rel;
    var k := Rel(d, i);
    RelIs(d, i);
    if k < |cs| {
      assert grown[k] == cs[k];
    } else {
      NewCluster(cs, grown, k);
      OtherBytes(d, r0, r1, cs, grown, i);
    }
  }

  lemma RelIs(d: Dpb, i: nat)
    requires d.spc > 0 && d.secsize > 0
    ensures Rel(d, i) == i / d.secsize / d.spc
  {
  }

  lemma NewCluster(cs: seq<nat>, grown: seq<nat>, k: nat)
    requires Clusters(grown) && cs <= grown && |cs| <= k < |grown|
    ensures grown[k] !in cs
  {
    assert forall j :: 0 <= j < |cs| ==> cs[j] == grown[j];
  }

  /** Sectors `q` to `q + n` of a file lie one after the other on the disk from `lo` on. */
  ghost predicate Contiguous(d: Dpb, cs: seq<nat>, q: nat, n: nat, lo: nat)
    requires d.spc > 0 && Clusters(cs)
  {
    forall t: nat :: t < n ==> SectorAt(d, cs, q + t, At(d.unit, lo, t))
  }

  /** Sector `q` of the file is block `b`. */
  ghost predicate SectorAt(d: Dpb, cs: seq<nat>, q: nat, b: Block)
    requires d.spc > 0 && Clusters(cs)
  {
    q / d.spc < |cs| && FileBlock(d, cs, q) == b
  }

  /** `data` is `bytes` cut into sectors. */
  ghost predicate Sectored(s: nat, data: seq<Sector>, bytes: seq<byte>) {
    |bytes| == |data| * s && forall t :: 0 <= t < |data| ==> SectorIs(s, data[t], bytes, t)
  }

  ghost predicate SectorIs(s: nat, sector: Sector, bytes: seq<byte>, t: nat) {
    |sector| == s && forall k :: 0 <= k < s ==> 0 <= t * s + k < |bytes| && sector[k] == bytes[t * s + k]
  }

  lemma SectoredParts(s: nat, data: seq<Sector>, bytes: seq<byte>)
    requires Sectored(s, data, bytes) && data != []
    ensures var n := |data| - 1;
            && 0 <= n * s <= |bytes| == n * s + s && Sectored(s, data[..n], bytes[..n * s]) && data[n] == bytes[n * s..]
            && bytes == bytes[..n * s] + bytes[n * s..]
  {
    var n := |data| - 1;
    MulStep(n, s);
    assert SectorIs(s, data[n], bytes, n);
    forall t | 0 <= t < n ensures SectorIs(s, data[..n][t], bytes[..n * s], t) {
      MulMono(t + 1, n, s);
      MulStep(t, s);
      assert SectorIs(s, data[t], bytes, t);
    }
  }

  lemma SplicedSnoc(r0: Disk, unit: int, lo: nat, data: seq<Sector>)
    requires data != [] && At(unit, lo, |data| - 1) in r0
    ensures var n := |data| - 1; var r := Spliced(r0, unit, lo, data[..n]);
            At(unit, lo, n) in r && r[At(unit, lo, n)] == r0[At(unit, lo, n)]
            && Spliced(r0, unit, lo, data) == r[At(unit, lo, n) := data[n]]
  {
  }

  lemma OverlayAll(s: Sector, t: Sector)
    requires |s| == |t|
    ensures Overlay(s, 0, t) == t
  {
  }

  /** A run of sectors written past the cache is a stretch of bytes written into the file. */
  lemma {:induction false} RunWritten(d: Dpb, r0: Disk, cs: seq<nat>, q: nat, lo: nat, data: seq<Sector>,
                                      bytes: seq<byte>)
    requires d.spc > 0 && d.secsize > 0 && Clusters(cs) && Contiguous(d, cs, q, |data|, lo)
    requires Sectored(d.secsize, data, bytes)
    requires forall t: nat :: t < |data| ==> At(d.unit, lo, t) in r0 && |r0[At(d.unit, lo, t)]| == d.secsize
    ensures var r1 := Spliced(r0, d.unit, lo, data);
            ByteSpliced(d, r0, r1, cs, q * d.secsize, bytes) && RestKept(d, r0, r1, cs)
  {
    if data == [] {
      assert Spliced(r0, d.unit, lo, data) == r0 && bytes == [];
      NothingSpliced(d, r0, cs, q * d.secsize);
    } else {
      var n := |data| - 1;
      SectoredParts(d.secsize, data, bytes);
      assert Contiguous(d, cs, q, n, lo) && SectorAt(d, cs, q + n, At(d.unit, lo, n));
      assert At(d.unit, lo, n) in r0 && |r0[At(d.unit, lo, n)]| == d.secsize;
      RunWritten(d, r0, cs, q, lo, data[..n], bytes[..n * d.secsize]);
      RunStep(d, r0, cs, q, lo, data, bytes);
    }
  }

  lemma RunStep(d: Dpb, r0: Disk, cs: seq<nat>, q: nat, lo: nat, data: seq<Sector>, bytes: seq<byte>)
    requires d.spc > 0 && d.secsize > 0 && Clusters(cs) && data != []
    requires var n := |data| - 1; var b := At(d.unit, lo, n);
             && SectorAt(d, cs, q + n, b) && b in r0 && |r0[b]| == d.secsize
             && 0 <= n * d.secsize <= |bytes| == n * d.secsize + d.secsize && data[n] == bytes[n * d.secsize..]
             && ByteSpliced(d, r0, Spliced(r0, d.unit, lo, data[..n]), cs, q * d.secsize, bytes[..n * d.secsize])
             && RestKept(d, r0, Spliced(r0, d.unit, lo, data[..n]), cs)
    ensures var r1 := Spliced(r0, d.unit, lo, data);
            ByteSpliced(d, r0, r1, cs, q * d.secsize, bytes) && RestKept(d, r0, r1, cs)
  {
    hide ByteSpliced, RestKept, Spliced, FileBlock, Clusters;
    var n := |data| - 1;
    var b, r := At(d.unit, lo, n), Spliced(r0, d.unit, lo, data[..n]);
    SplicedSnoc(r0, d.unit, lo, data);
    OverlayAll(r[b], data[n]);
    SectorWritten(d, r, cs, q + n, 0, data[n]);
    Distribute(q, n, d.secsize);
    var k, next := n * d.secsize, (q + n) * d.secsize;
    assert bytes == bytes[..k] + data[n];
    assert ByteSpliced(d, r, Spliced(r0, d.unit, lo, data), cs, next, data[n]);
    SplicedTransitive(d, r0, r, Spliced(r0, d.unit, lo, data), cs, q * d.secsize, bytes[..k], next, data[n]);
    RestTransitive(d, r0, r, Spliced(r0, d.unit, lo, data), cs);
  }

  /** A run of sectors read past the cache is a stretch of bytes of the file. */
  lemma RunRead(d: Dpb, r0: Disk, cs: seq<nat>, q: nat, lo: nat, data: seq<Sector>, bytes: seq<byte>, i: nat)
    requires d.spc > 0 && d.secsize > 0 && Clusters(cs) && Contiguous(d, cs, q, |data|, lo)
    requires Sectored(d.secsize, data, bytes)
    requires forall t: nat :: t < |data| ==> At(d.unit, lo, t) in r0 && data[t] == r0[At(d.unit, lo, t)]
    requires i < |bytes|
    ensures Rel(d, q * d.secsize + i) < |cs| && bytes[i] == FileByte(d, r0, cs, q * d.secsize + i)
  {
    var t, k := i / d.secsize, i % d.secsize;
    assert i == t * d.secsize + k;
    if t >= |data| {
      MulMono(|data|, t, d.secsize);
    }
    Distribute(q, t, d.secsize);
    ByteInSector(d.secsize, q + t, k);
    assert SectorAt(d, cs, q + t, At(d.unit, lo, t));
    assert SectorIs(d.secsize, data[t], bytes, t);
  }
}
