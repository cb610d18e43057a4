/** The sector cache of kernel/blockio.c: an LRU ring of buffers in front of the
    disks, with write-back and FAT mirroring, against the plain logical disk. */
module BlockIo {
  import opened Arith
  import opened LruRing

  type Sector = seq<byte>

  /** A sector of a drive. */
  datatype Block = Block(unit: int, num: nat)

  /** The FAT copies of a drive: `copies` areas of `size` sectors from `start`. */
  datatype FatArea = FatArea(start: nat, size: nat, copies: nat)

  /** `struct buffer` without its links; `stride` is the distance between FAT copies. */
  datatype Buffer = Buffer(key: Block, valid: bool, dirty: bool, fat: bool, uncache: bool,
                           copies: nat, stride: nat, data: Sector)

  /** The buffer holds block `b`. */
  predicate Holds(x: Buffer, b: Block) {
    x.valid && x.key == b
  }

  lemma MarkHolds(x: Buffer, mark: bool, b: Block)
    ensures Holds(x.(uncache := mark), b) <==> Holds(x, b)
  {
  }

  predicate InPrimary(g: map<int, FatArea>, b: Block) {
    b.unit in g && g[b.unit].start <= b.num < g[b.unit].start + g[b.unit].size
  }

  predicate IsMirror(g: map<int, FatArea>, b: Block) {
    b.unit in g
    && g[b.unit].start + g[b.unit].size <= b.num < g[b.unit].start + g[b.unit].copies * g[b.unit].size
  }

  /** The `j`-th copy of block `b`. */
  function Copy(b: Block, stride: nat, j: nat): Block {
    Block(b.unit, b.num + j * stride)
  }

  lemma StrideBounds(j: nat, s: nat, c: nat)
    requires 1 <= j < c
    ensures s <= j * s && j * s + s <= c * s
  {
    MulMono(1, j, s);
    MulStep(j, s);
    MulMono(j + 1, c, s);
  }

  lemma CopyIsMirror(g: map<int, FatArea>, b: Block, j: nat)
    requires InPrimary(g, b) && 1 <= j < g[b.unit].copies
    ensures IsMirror(g, Copy(b, g[b.unit].size, j))
  {
    StrideBounds(j, g[b.unit].size, g[b.unit].copies);
  }

  lemma SameOffset(a: nat, i: nat, b: nat, j: nat, s: nat)
    requires a < s && b < s && a + i * s == b + j * s
    ensures a == b
  {
    DivModUnique(a + i * s, s, i, a);
    DivModUnique(b + j * s, s, j, b);
  }

  /** Copies of different FAT sectors never coincide. */
  lemma CopyInjective(g: map<int, FatArea>, b: Block, i: nat, c: Block, j: nat)
    requires InPrimary(g, b) && InPrimary(g, c) && b.unit == c.unit
    requires Copy(b, g[b.unit].size, i) == Copy(c, g[c.unit].size, j)
    ensures b == c
  {
    var a := g[b.unit];
    SameOffset(b.num - a.start, i, c.num - a.start, j, a.size);
  }

  /** Last position below `n` whose buffer satisfies the search's UNCACHE test, or -1. */
  function LastUncached(bufs: seq<Buffer>, order: seq<nat>, n: nat): (k: int)
    requires n <= |order| && forall i :: 0 <= i < |order| ==> order[i] < |bufs|
    ensures -1 <= k < n
    ensures k >= 0 ==> bufs[order[k]].uncache
    ensures forall i :: k < i < n ==> !bufs[order[i]].uncache
  {
    if n == 0 then -1 else if bufs[order[n - 1]].uncache then n - 1 else LastUncached(bufs, order, n - 1)
  }

  /** Last position below `n` that does not hold a FAT sector, or -1. */
  function LastNonFat(bufs: seq<Buffer>, order: seq<nat>, n: nat): (k: int)
    requires n <= |order| && forall i :: 0 <= i < |order| ==> order[i] < |bufs|
    ensures -1 <= k < n
    ensures k >= 0 ==> !bufs[order[k]].fat
    ensures forall i :: k < i < n ==> bufs[order[i]].fat
  {
    if n == 0 then -1 else if !bufs[order[n - 1]].fat then n - 1 else LastNonFat(bufs, order, n - 1)
  }

  function FatCount(bufs: seq<Buffer>, order: seq<nat>, n: nat): nat
    requires n <= |order| && forall i :: 0 <= i < |order| ==> order[i] < |bufs|
  {
    if n == 0 then 0 else FatCount(bufs, order, n - 1) + if bufs[order[n - 1]].fat then 1 else 0
  }

  /** Ring position recycled on a miss. */
  function Victim(bufs: seq<Buffer>, order: seq<nat>): (k: nat)
    requires |order| > 0 && forall i :: 0 <= i < |order| ==> order[i] < |bufs|
    ensures k < |order|
    ensures |order| > 1 && !bufs[order[0]].uncache ==> k > 0
  {
    var u := LastUncached(bufs, order, |order|);
    var f := LastNonFat(bufs, order, |order|);
    if u >= 0 then u
    else if bufs[order[0]].fat && FatCount(bufs, order, |order|) < 3 && f >= 0 then f
    else |order| - 1
  }

  lemma {:induction false} FatBuffers(bufs: seq<Buffer>, order: seq<nat>, n: nat)
    requires n <= |order| && forall i :: 0 <= i < |order| ==> order[i] < |bufs|
    ensures FatCount(bufs, order, n) == |set i | 0 <= i < n && bufs[order[i]].fat|
  {
    if n > 0 {
      FatBuffers(bufs, order, n - 1);
      var was, now := set i | 0 <= i < n - 1 && bufs[order[i]].fat, set i | 0 <= i < n && bufs[order[i]].fat;
      assert now == if bufs[order[n - 1]].fat then was + {n - 1} else was;
    }
  }

  /** The buffer given up on a miss: the last marked to be, else the last with no FAT sector if the first has one and
      there are fewer than three with one, else the last. */
  lemma VictimChosen(bufs: seq<Buffer>, order: seq<nat>)
    requires |order| > 0 && forall i :: 0 <= i < |order| ==> order[i] < |bufs|
    ensures var k, n := Victim(bufs, order), |order|;
            if exists i :: 0 <= i < n && bufs[order[i]].uncache
            then bufs[order[k]].uncache && forall i :: k < i < n ==> !bufs[order[i]].uncache
            else if bufs[order[0]].fat && |set i | 0 <= i < n && bufs[order[i]].fat| < 3
                    && exists i :: 0 <= i < n && !bufs[order[i]].fat
            then !bufs[order[k]].fat && forall i :: k < i < n ==> bufs[order[i]].fat
            else k == n - 1
  {
    FatBuffers(bufs, order, |order|);
  }

  lemma ScanStep(bufs: seq<Buffer>, order: seq<nat>, k: nat)
    requires k < |order| && forall i :: 0 <= i < |order| ==> order[i] < |bufs|
    ensures LastUncached(bufs, order, k + 1) == if bufs[order[k]].uncache then k else LastUncached(bufs, order, k)
    ensures LastNonFat(bufs, order, k + 1) == if !bufs[order[k]].fat then k else LastNonFat(bufs, order, k)
    ensures FatCount(bufs, order, k + 1) == FatCount(bufs, order, k) + if bufs[order[k]].fat then 1 else 0
  {
  }

  /** Positions of a prefix of the ring that a walk from `first` has passed. */
  lemma WalkStep(next: seq<nat>, prev: seq<nat>, order: seq<nat>, k: nat)
    requires Linked(next, prev, order) && k < |order|
    ensures order[k] < |next| == |prev|
    ensures next[order[k]] == order[0] <==> k + 1 == |order|
    ensures k + 1 < |order| ==> next[order[k]] == order[k + 1]
  {
    assert LinkedAt(next, prev, order, k);
  }

  /** What coherence is about: the disks, the buffers of the ring and the logical disk. */
  datatype View = View(disk: map<Block, Sector>, bufs: seq<Buffer>, members: seq<nat>,
                       logical: map<Block, Sector>)

  ghost predicate DiskOk(g: map<int, FatArea>, secsize: nat, v: View) {
    && (forall b :: b in v.disk ==> |v.disk[b]| == secsize)
    && (forall b :: b in v.logical <==> b in v.disk && !IsMirror(g, b))
    && (forall b :: b in v.logical ==> |v.logical[b]| == secsize)
    && (forall u :: u in g ==> g[u].copies >= 1)
    && (forall b :: InPrimary(g, b) || IsMirror(g, b) ==> b in v.disk)
    && (forall i :: i in v.members ==> i < |v.bufs|)
  }

  /** What holds of one buffer of the ring. */
  ghost predicate BufferOk(g: map<int, FatArea>, secsize: nat, v: View, x: Buffer) {
    && |x.data| == secsize
    && (x.valid ==> x.key in v.disk)
    && (x.valid && x.key in v.logical ==> x.data == v.logical[x.key])
    && (x.valid && x.fat ==> InPrimary(g, x.key) && x.copies == g[x.key.unit].copies && x.stride == g[x.key.unit].size)
  }

  ghost predicate DirtyIn(v: View, i: nat, b: Block) {
    i in v.members && i < |v.bufs| && Holds(v.bufs[i], b) && v.bufs[i].dirty
  }

  ghost predicate Dirty(v: View, b: Block) {
    exists i: nat :: DirtyIn(v, i, b)
  }

  /** At most one valid buffer per block. */
  ghost predicate OneHolder(v: View)
    requires forall i :: i in v.members ==> i < |v.bufs|
  {
    forall i, j :: i in v.members && j in v.members && v.bufs[i].valid && Holds(v.bufs[j], v.bufs[i].key) ==> i == j
  }

  /** Valid buffers show the logical disk, one per block, and a block outside
      `pending` that is not dirty in the cache is up to date on disk. */
  ghost predicate Coherent(g: map<int, FatArea>, secsize: nat, v: View, pending: set<Block>) {
    && DiskOk(g, secsize, v)
    && (forall i :: i in v.members ==> BufferOk(g, secsize, v, v.bufs[i]))
    && OneHolder(v)
    && (forall b :: b in v.logical && b !in pending ==> v.disk[b] == v.logical[b] || Dirty(v, b))
  }

  /** The `j`-th copy of FAT sector `b` agrees with it unless `b` is dirty in the cache. */
  ghost predicate MirrorSynced(g: map<int, FatArea>, v: View, b: Block, j: nat)
    requires InPrimary(g, b)
  {
    var c := Copy(b, g[b.unit].size, j);
    b in v.disk && c in v.disk && (v.disk[c] == v.disk[b] || Dirty(v, b))
  }

  /** Copies are never dirty, FAT sectors are only dirty in FAT buffers, and clean ones agree with all their copies. */
  ghost predicate MirrorsFollow(g: map<int, FatArea>, v: View) {
    && (forall i :: i in v.members && i < |v.bufs| && v.bufs[i].valid && v.bufs[i].dirty
                    ==> !IsMirror(g, v.bufs[i].key) && (InPrimary(g, v.bufs[i].key) ==> v.bufs[i].fat))
    && (forall b, j: nat :: InPrimary(g, b) && 1 <= j < g[b.unit].copies ==> MirrorSynced(g, v, b, j))
  }

  /** `disk` after buffer `x` was written: only `x.key` and, for FAT sectors, its copies differ,
      and with `ok` they all hold the buffer's bytes. */
  ghost predicate Written(g: map<int, FatArea>, x: Buffer, before: map<Block, Sector>, after: map<Block, Sector>,
                          ok: bool)
  {
    && after.Keys == before.Keys
    && (forall b :: b in after && after[b] != before[b]
                    ==> b == x.key || (x.fat && exists j: nat :: 1 <= j < x.copies && b == Copy(x.key, x.stride, j)))
    && (ok ==> x.key in after && after[x.key] == x.data)
    && (ok && x.fat ==> forall j: nat :: 1 <= j < x.copies ==>
        var c := Copy(x.key, x.stride, j); c in after && after[c] == x.data)
  }

  /** The view after `flush1` of buffer `i` wrote the disk. */
  function Flushed(v: View, i: nat, disk: map<Block, Sector>, ok: bool): View
    requires i < |v.bufs|
  {
    var x := v.bufs[i];
    v.(disk := disk,
       bufs := v.bufs[i := x.(dirty := false, valid := x.valid && ok)],
       logical := if !ok && x.key in v.logical && x.key in disk then v.logical[x.key := disk[x.key]] else v.logical)
  }

  /** Writing `x` back touches no block of the logical disk but its own. */
  lemma WriteBackFrame(g: map<int, FatArea>, x: Buffer, before: map<Block, Sector>, after: map<Block, Sector>, ok: bool,
                       b: Block)
    requires Written(g, x, before, after, ok) && b in after && !IsMirror(g, b) && b != x.key
    requires x.fat ==> InPrimary(g, x.key) && x.copies == g[x.key.unit].copies && x.stride == g[x.key.unit].size
    ensures after[b] == before[b]
  {
    if after[b] != before[b] {
      var j: nat :| 1 <= j < x.copies && b == Copy(x.key, x.stride, j);
      CopyIsMirror(g, x.key, j);
    }
  }

  /** Writing a buffer back keeps the cache coherent; after an error only that block's
      logical contents change. */
  lemma FlushCoherent(g: map<int, FatArea>, secsize: nat, v: View, i: nat, disk: map<Block, Sector>, ok: bool)
    requires Coherent(g, secsize, v, {}) && i in v.members
    requires forall b :: b in disk ==> |disk[b]| == secsize
    requires if v.bufs[i].valid && v.bufs[i].dirty then Written(g, v.bufs[i], v.disk, disk, ok)
             else ok && disk == v.disk
    ensures Coherent(g, secsize, Flushed(v, i, disk, ok), {})
  {
    hide InPrimary, IsMirror, Written, BufferOk, OneHolder, Dirty, DirtyIn;
    var x, w := v.bufs[i], Flushed(v, i, disk, ok);
    WrittenKeys(g, x, v.disk, disk, ok);
    FlushBuffersOk(g, secsize, v, i, disk, ok);
    FlushHolders(v, i, w);
    forall b | b in w.logical ensures w.disk[b] == w.logical[b] || Dirty(w, b) {
      assert BufferOk(g, secsize, v, x);
      FlushDirty(g, secsize, v, i, disk, ok, b);
    }
  }

  lemma WrittenKeys(g: map<int, FatArea>, x: Buffer, before: map<Block, Sector>, after: map<Block, Sector>, ok: bool)
    ensures Written(g, x, before, after, ok) ==> after.Keys == before.Keys
  {
  }

  lemma FlushBuffersOk(g: map<int, FatArea>, secsize: nat, v: View, i: nat, disk: map<Block, Sector>, ok: bool)
    requires (forall k :: k in v.members ==> k < |v.bufs|) && OneHolder(v) && i in v.members && disk.Keys == v.disk.Keys
    requires (!ok ==> v.bufs[i].valid) && forall b :: b in disk ==> |disk[b]| == secsize
    requires forall k :: k in v.members ==> BufferOk(g, secsize, v, v.bufs[k])
    ensures var w := Flushed(v, i, disk, ok); forall k :: k in w.members ==> BufferOk(g, secsize, w, w.bufs[k])
  {
    hide InPrimary;
    var w := Flushed(v, i, disk, ok);
    forall k | k in w.members ensures BufferOk(g, secsize, w, w.bufs[k]) {
      assert BufferOk(g, secsize, v, v.bufs[k]);
    }
  }

  lemma FlushHolders(v: View, i: nat, w: View)
    requires (forall k :: k in v.members ==> k < |v.bufs|) && OneHolder(v) && i < |v.bufs| == |w.bufs|
    requires w.members == v.members
    requires w.bufs == v.bufs[i := w.bufs[i]] && w.bufs[i].key == v.bufs[i].key && (w.bufs[i].valid ==> v.bufs[i].valid)
    ensures OneHolder(w)
  {
  }

  lemma FlushDirty(g: map<int, FatArea>, secsize: nat, v: View, i: nat, disk: map<Block, Sector>, ok: bool, b: Block)
    requires i in v.members && i < |v.bufs| && BufferOk(g, secsize, v, v.bufs[i]) && disk.Keys == v.disk.Keys
    requires b in v.logical && b in v.disk && !IsMirror(g, b) && (v.disk[b] == v.logical[b] || Dirty(v, b))
    requires if v.bufs[i].valid && v.bufs[i].dirty then Written(g, v.bufs[i], v.disk, disk, ok)
             else ok && disk == v.disk
    ensures var w := Flushed(v, i, disk, ok);
            b in w.logical && b in w.disk && (w.disk[b] == w.logical[b] || Dirty(w, b))
  {
    hide InPrimary, IsMirror;
    var x, w := v.bufs[i], Flushed(v, i, disk, ok);
    if x.valid && x.dirty && b != x.key {
      WriteBackFrame(g, x, v.disk, disk, ok, b);
    }
    if v.disk[b] != v.logical[b] && (b != x.key || !x.valid || !x.dirty) {
      var k: nat :| DirtyIn(v, k, b);
      assert DirtyIn(w, k, b);
    }
  }

  /** Writing `x` back leaves every other FAT sector and its copies alone. */
  lemma UntouchedCopies(g: map<int, FatArea>, x: Buffer, before: map<Block, Sector>, after: map<Block, Sector>,
                        b: Block, j: nat)
    requires InPrimary(g, b) && 1 <= j < g[b.unit].copies && b != x.key && !IsMirror(g, x.key)
    requires Written(g, x, before, after, true)
    requires x.fat ==> InPrimary(g, x.key) && x.copies == g[x.key.unit].copies && x.stride == g[x.key.unit].size
    requires b in before && Copy(b, g[b.unit].size, j) in before
    ensures b in after && after[b] == before[b]
    ensures var c := Copy(b, g[b.unit].size, j); c in after && after[c] == before[c]
  {
    var c := Copy(b, g[b.unit].size, j);
    CopyIsMirror(g, b, j);
    if after[b] != before[b] {
      var k: nat :| 1 <= k < x.copies && b == Copy(x.key, x.stride, k);
      CopyIsMirror(g, x.key, k);
    }
    if after[c] != before[c] {
      var k: nat :| 1 <= k < x.copies && c == Copy(x.key, x.stride, k);
      CopyInjective(g, b, j, x.key, k);
    }
  }

  /** An error-free write-back keeps every FAT sector and its copies together. */
  lemma FlushMirrors(g: map<int, FatArea>, secsize: nat, v: View, i: nat, disk: map<Block, Sector>)
    requires Coherent(g, secsize, v, {}) && MirrorsFollow(g, v) && i in v.members
    requires if v.bufs[i].valid && v.bufs[i].dirty then Written(g, v.bufs[i], v.disk, disk, true) else disk == v.disk
    ensures MirrorsFollow(g, Flushed(v, i, disk, true))
  {
    var x, w := v.bufs[i], Flushed(v, i, disk, true);
    assert BufferOk(g, secsize, v, x);
    forall b, j: nat | InPrimary(g, b) && 1 <= j < g[b.unit].copies ensures MirrorSynced(g, w, b, j) {
      assert MirrorSynced(g, v, b, j);
      if b == x.key && x.valid && x.dirty {
      } else {
        if x.valid && x.dirty {
          UntouchedCopies(g, x, v.disk, disk, b, j);
        }
        if v.disk[Copy(b, g[b.unit].size, j)] != v.disk[b] {
          var k: nat :| DirtyIn(v, k, b);
          assert DirtyIn(w, k, b);
        }
      }
    }
  }

  /** What coherence says about sizes and places. */
  lemma CoherentBounds(g: map<int, FatArea>, secsize: nat, v: View, pending: set<Block>, i: nat)
    requires Coherent(g, secsize, v, pending) && i in v.members
    ensures i < |v.bufs| && BufferOk(g, secsize, v, v.bufs[i])
    ensures forall b :: b in v.disk ==> |v.disk[b]| == secsize
    ensures forall b :: b in v.logical ==> b in v.disk
  {
  }

  /** `flush1` never leaves the disk. */
  lemma CopiesExist(g: map<int, FatArea>, secsize: nat, v: View, i: nat)
    requires Coherent(g, secsize, v, {}) && i in v.members
    ensures i < |v.bufs| && |v.bufs[i].data| == secsize && forall b :: b in v.disk ==> |v.disk[b]| == secsize
    ensures var x := v.bufs[i]; x.valid ==>
            x.key in v.disk
            && (x.fat ==> x.copies >= 1 && forall j: nat :: 1 <= j < x.copies ==> Copy(x.key, x.stride, j) in v.disk)
  {
    var x := v.bufs[i];
    assert BufferOk(g, secsize, v, x);
    if x.valid && x.fat {
      forall j: nat | 1 <= j < x.copies ensures Copy(x.key, x.stride, j) in v.disk {
        CopyIsMirror(g, x.key, j);
      }
    }
  }

  /** FAT copies still follow when the disk is the same, what was dirty is, and what is dirty may be. */
  lemma MirrorsKept(g: map<int, FatArea>, v: View, w: View)
    requires MirrorsFollow(g, v) && w.disk == v.disk
    requires forall k: nat, b :: DirtyIn(v, k, b) && InPrimary(g, b) ==> Dirty(w, b)
    requires forall k :: k in w.members && k < |w.bufs| && w.bufs[k].valid && w.bufs[k].dirty
                         ==> !IsMirror(g, w.bufs[k].key) && (InPrimary(g, w.bufs[k].key) ==> w.bufs[k].fat)
    ensures MirrorsFollow(g, w)
  {
    hide IsMirror, DirtyIn;
    forall b, j: nat | InPrimary(g, b) && 1 <= j < g[b.unit].copies ensures MirrorSynced(g, w, b, j) {
      assert MirrorSynced(g, v, b, j);
    }
  }

  /** Coherence does not depend on the order of the ring or on UNCACHE marks. */
  lemma ReorderCoherent(g: map<int, FatArea>, secsize: nat, v: View, w: View, pending: set<Block>)
    requires Coherent(g, secsize, v, pending)
    requires w.disk == v.disk && w.logical == v.logical && |w.bufs| == |v.bufs|
    requires forall i :: i in w.members <==> i in v.members
    requires forall i :: i in v.members ==> w.bufs[i] == v.bufs[i].(uncache := w.bufs[i].uncache)
    ensures Coherent(g, secsize, w, pending)
    ensures MirrorsFollow(g, v) ==> MirrorsFollow(g, w)
  {
    hide InPrimary, IsMirror;
    assert forall i: nat, b :: DirtyIn(v, i, b) ==> DirtyIn(w, i, b);
    forall i | i in w.members ensures BufferOk(g, secsize, w, w.bufs[i]) {
      assert BufferOk(g, secsize, v, v.bufs[i]);
    }
    if MirrorsFollow(g, v) {
      MirrorsKept(g, v, w);
    }
  }

  /** The view when buffer `i` has become `x`, and the logical disk `logical`. */
  function Changed(v: View, i: nat, x: Buffer, logical: map<Block, Sector>): View
    requires i < |v.bufs|
  {
    v.(bufs := v.bufs[i := x], logical := logical)
  }

  /** The logical disk with block `b`, if it has it, set to `s`. */
  function SetBlock(logical: map<Block, Sector>, b: Block, s: Sector): map<Block, Sector> {
    if b in logical then logical[b := s] else logical
  }

  /** One buffer changed: what is left to show for coherence. */
  lemma ChangeCoherent(g: map<int, FatArea>, secsize: nat, v: View, i: nat, x: Buffer, b: Block, s: Sector,
                       was: set<Block>, now: set<Block>)
    requires Coherent(g, secsize, v, was) && i in v.members && |s| == secsize
    requires v.bufs[i].valid ==> v.bufs[i].key == b || !v.bufs[i].dirty
    requires forall k :: k in v.members && k != i ==> !Holds(v.bufs[k], b) || (b in v.logical ==> s == v.logical[b])
    requires forall k :: k in v.members && k != i ==> !(x.valid && Holds(v.bufs[k], x.key))
    requires BufferOk(g, secsize, Changed(v, i, x, SetBlock(v.logical, b, s)), x)
    requires b in v.logical && b !in now ==> v.disk[b] == s || (Holds(x, b) && x.dirty)
    requires was <= {b}
    ensures Coherent(g, secsize, Changed(v, i, x, SetBlock(v.logical, b, s)), now)
  {
    hide InPrimary, IsMirror, BufferOk, Dirty, DirtyIn, OneHolder;
    var w := Changed(v, i, x, SetBlock(v.logical, b, s));
    ChangeBuffers(g, secsize, v, i, x, b, s);
    ChangeHolders(v, i, x, w);
    forall c | c in w.logical && c !in now ensures w.disk[c] == w.logical[c] || Dirty(w, c) {
      ChangeDirty(v, i, x, b, s, c);
    }
  }

  lemma ChangeBuffers(g: map<int, FatArea>, secsize: nat, v: View, i: nat, x: Buffer, b: Block, s: Sector)
    requires i < |v.bufs| && forall k :: k in v.members ==> k < |v.bufs| && BufferOk(g, secsize, v, v.bufs[k])
    requires forall k :: k in v.members && k != i ==> !Holds(v.bufs[k], b) || (b in v.logical ==> s == v.logical[b])
    requires BufferOk(g, secsize, Changed(v, i, x, SetBlock(v.logical, b, s)), x)
    ensures var w := Changed(v, i, x, SetBlock(v.logical, b, s)); forall k :: k in w.members ==>
              BufferOk(g, secsize, w, w.bufs[k])
  {
    hide InPrimary;
    var w := Changed(v, i, x, SetBlock(v.logical, b, s));
    forall k | k in w.members ensures BufferOk(g, secsize, w, w.bufs[k]) {
      assert BufferOk(g, secsize, v, v.bufs[k]);
    }
  }

  lemma ChangeHolders(v: View, i: nat, x: Buffer, w: View)
    requires i < |v.bufs| && (forall k :: k in v.members ==> k < |v.bufs|) && OneHolder(v)
    requires w == Changed(v, i, x, w.logical)
    requires forall k :: k in v.members && k != i ==> !(x.valid && Holds(v.bufs[k], x.key))
    ensures OneHolder(w)
  {
  }

  /** A block that was dirty still is, unless it is the one that changed. */
  lemma ChangeDirty(v: View, i: nat, x: Buffer, b: Block, s: Sector, c: Block)
    requires i < |v.bufs| && i in v.members && c in v.logical && c in v.disk
    requires (v.disk[c] == v.logical[c] || Dirty(v, c) || c == b)
    requires v.bufs[i].valid ==> v.bufs[i].key == b || !v.bufs[i].dirty
    requires c == b ==> v.disk[b] == s || (Holds(x, b) && x.dirty)
    ensures var w := Changed(v, i, x, SetBlock(v.logical, b, s)); w.disk[c] == w.logical[c] || Dirty(w, c)
  {
    var w := Changed(v, i, x, SetBlock(v.logical, b, s));
    if c == b {
      assert Holds(x, b) && x.dirty ==> DirtyIn(w, i, b);
    } else if Dirty(v, c) {
      var k: nat :| DirtyIn(v, k, c);
      assert DirtyIn(w, k, c);
    }
  }

  /** Tagging the buffer of a FAT sector as such keeps coherence. */
  lemma TagCoherent(g: map<int, FatArea>, secsize: nat, v: View, w: View, i: nat)
    requires Coherent(g, secsize, v, {}) && i in v.members && v.bufs[i].valid && InPrimary(g, v.bufs[i].key)
    requires w == v.(bufs := v.bufs[i := v.bufs[i].(fat := true, copies := g[v.bufs[i].key.unit].copies,
                                                    stride := g[v.bufs[i].key.unit].size)])
    ensures Coherent(g, secsize, w, {}) && (MirrorsFollow(g, v) ==> MirrorsFollow(g, w))
  {
    assert forall k: nat, b :: DirtyIn(v, k, b) ==> DirtyIn(w, k, b);
    forall k | k in w.members ensures BufferOk(g, secsize, w, w.bufs[k]) {
      assert BufferOk(g, secsize, v, v.bufs[k]);
    }
    if MirrorsFollow(g, v) {
      MirrorsKept(g, v, w);
    }
  }

  /** Giving a clean buffer to an uncached block with contents `s` keeps coherence; contents other
      than the disk's leave that block pending. */
  lemma ReuseCoherent(g: map<int, FatArea>, secsize: nat, v: View, i: nat, x: Buffer)
    requires Coherent(g, secsize, v, {}) && i in v.members && !(v.bufs[i].valid && v.bufs[i].dirty)
    requires x.valid && !x.dirty && !x.fat && |x.data| == secsize && x.key in v.disk
    requires forall k :: k in v.members ==> !Holds(v.bufs[k], x.key)
    ensures var w := Changed(v, i, x, SetBlock(v.logical, x.key, x.data));
            Coherent(g, secsize, w, if x.data == v.disk[x.key] then {} else {x.key})
            && (MirrorsFollow(g, v) ==> MirrorsFollow(g, w))
  {
    var w := Changed(v, i, x, SetBlock(v.logical, x.key, x.data));
    hide Coherent, MirrorsFollow, InPrimary, IsMirror;
    CoherentBounds(g, secsize, v, {}, i);
    ChangeCoherent(g, secsize, v, i, x, x.key, x.data, {}, if x.data == v.disk[x.key] then {} else {x.key});
    if MirrorsFollow(g, v) {
      MirrorsClean(g, v, w, i, x);
    }
  }

  /** A block that no buffer holds is up to date on disk. */
  lemma NotHeld(g: map<int, FatArea>, secsize: nat, v: View, b: Block)
    requires Coherent(g, secsize, v, {}) && forall i :: i in v.members ==> i < |v.bufs| && !Holds(v.bufs[i], b)
    ensures b in v.logical ==> b in v.disk && v.disk[b] == v.logical[b]
    ensures forall s :: b in v.logical && b in v.disk && s == v.disk[b] ==> SetBlock(v.logical, b, s) == v.logical
  {
    hide InPrimary, IsMirror, BufferOk;
    assert !Dirty(v, b);
  }

  /** A clean buffer became another clean one. */
  lemma MirrorsClean(g: map<int, FatArea>, v: View, w: View, i: nat, x: Buffer)
    requires MirrorsFollow(g, v) && i < |v.bufs| && w == Changed(v, i, x, w.logical)
    requires !(v.bufs[i].valid && v.bufs[i].dirty) && !x.dirty
    ensures MirrorsFollow(g, w)
  {
    hide InPrimary, IsMirror;
    assert forall k: nat, b :: DirtyIn(v, k, b) ==> DirtyIn(w, k, b);
    MirrorsKept(g, v, w);
  }

  /** Writing into the buffer of a block writes the block of the logical disk. */
  lemma StoreCoherent(g: map<int, FatArea>, secsize: nat, v: View, i: nat, x: Buffer)
    requires i < |v.bufs| && Coherent(g, secsize, v, {v.bufs[i].key}) && i in v.members && v.bufs[i].valid
    requires x.valid && x.dirty && x.key == v.bufs[i].key && |x.data| == secsize
    requires x.fat ==> InPrimary(g, x.key) && x.copies == g[x.key.unit].copies && x.stride == g[x.key.unit].size
    ensures var w := Changed(v, i, x, SetBlock(v.logical, x.key, x.data));
            && Coherent(g, secsize, w, {})
            && (MirrorsFollow(g, v) && !IsMirror(g, x.key) && (InPrimary(g, x.key) ==> x.fat) ==> MirrorsFollow(g, w))
  {
    var w := Changed(v, i, x, SetBlock(v.logical, x.key, x.data));
    hide Coherent, MirrorsFollow, InPrimary, IsMirror;
    CoherentBounds(g, secsize, v, {x.key}, i);
    OnlyHolder(g, secsize, v, {x.key}, i);
    ChangeCoherent(g, secsize, v, i, x, x.key, x.data, {x.key}, {});
    if MirrorsFollow(g, v) && !IsMirror(g, x.key) && (InPrimary(g, x.key) ==> x.fat) {
      MirrorsStored(g, v, w, i, x);
    }
  }

  lemma OnlyHolder(g: map<int, FatArea>, secsize: nat, v: View, pending: set<Block>, i: nat)
    requires Coherent(g, secsize, v, pending) && i in v.members && i < |v.bufs| && v.bufs[i].valid
    ensures forall k :: k in v.members ==> k < |v.bufs| && (k != i ==> !Holds(v.bufs[k], v.bufs[i].key))
  {
    hide InPrimary, IsMirror, BufferOk;
  }

  lemma MirrorsStored(g: map<int, FatArea>, v: View, w: View, i: nat, x: Buffer)
    requires MirrorsFollow(g, v) && i < |v.bufs| && w == Changed(v, i, x, w.logical)
    requires x.valid && x.dirty && x.key == v.bufs[i].key && !IsMirror(g, x.key) && (InPrimary(g, x.key) ==> x.fat)
    ensures MirrorsFollow(g, w)
  {
    hide InPrimary, IsMirror;
    assert forall k: nat, b :: DirtyIn(v, k, b) ==> DirtyIn(w, k, b);
    MirrorsKept(g, v, w);
  }

  /** The logical disk once the contents of buffer `x` are forgotten. */
  function Forgotten(v: View, x: Buffer): map<Block, Sector> {
    if x.valid && x.key in v.logical && x.key in v.disk then v.logical[x.key := v.disk[x.key]] else v.logical
  }

  /** Forgetting the contents of a buffer brings its block back to what is on disk. */
  lemma DropCoherent(g: map<int, FatArea>, secsize: nat, v: View, i: nat, x: Buffer)
    requires i < |v.bufs| && Coherent(g, secsize, v, {}) && i in v.members
    requires !x.valid && |x.data| == secsize
    ensures var w := Changed(v, i, x, Forgotten(v, v.bufs[i]));
            && Coherent(g, secsize, w, {})
            && (!(v.bufs[i].valid && v.bufs[i].dirty) ==> w.logical == v.logical)
            && (MirrorsFollow(g, v) && !(v.bufs[i].valid && v.bufs[i].dirty && InPrimary(g, v.bufs[i].key)) ==>
                MirrorsFollow(g, w))
  {
    var b := v.bufs[i].key;
    var w := Changed(v, i, x, Forgotten(v, v.bufs[i]));
    hide Coherent, MirrorsFollow, InPrimary, IsMirror;
    CoherentBounds(g, secsize, v, {}, i);
    if v.bufs[i].valid {
      OnlyHolder(g, secsize, v, {}, i);
      ChangeCoherent(g, secsize, v, i, x, b, v.disk[b], {}, {});
      if b in v.logical {
        CleanHolder(g, secsize, v, i);
      }
      assert w == Changed(v, i, x, SetBlock(v.logical, b, v.disk[b]));
    } else {
      StillInvalid(g, secsize, v, i, x);
    }
    if MirrorsFollow(g, v) && !(v.bufs[i].valid && v.bufs[i].dirty && InPrimary(g, b)) {
      DropMirrors(g, v, w, i);
    }
  }

  lemma StillInvalid(g: map<int, FatArea>, secsize: nat, v: View, i: nat, x: Buffer)
    requires Coherent(g, secsize, v, {}) && i in v.members && !v.bufs[i].valid && !x.valid && |x.data| == secsize
    ensures Coherent(g, secsize, Changed(v, i, x, v.logical), {})
  {
    hide InPrimary, IsMirror;
    var w := Changed(v, i, x, v.logical);
    assert forall k: nat, c :: DirtyIn(v, k, c) ==> DirtyIn(w, k, c);
    forall k | k in w.members ensures BufferOk(g, secsize, w, w.bufs[k]) {
      assert BufferOk(g, secsize, v, v.bufs[k]);
    }
  }

  /** A clean buffer shows what is on disk. */
  lemma CleanHolder(g: map<int, FatArea>, secsize: nat, v: View, i: nat)
    requires Coherent(g, secsize, v, {}) && i in v.members && v.bufs[i].valid && v.bufs[i].key in v.logical
    ensures !v.bufs[i].dirty ==> v.disk[v.bufs[i].key] == v.logical[v.bufs[i].key]
  {
    hide InPrimary, IsMirror, BufferOk;
    assert forall k: nat :: DirtyIn(v, k, v.bufs[i].key) ==> k == i;
  }

  lemma DropMirrors(g: map<int, FatArea>, v: View, w: View, i: nat)
    requires i < |v.bufs| && i < |w.bufs| && w.bufs == v.bufs[i := w.bufs[i]] && !w.bufs[i].valid
    requires w.disk == v.disk && w.members == v.members
    requires MirrorsFollow(g, v) && !(v.bufs[i].valid && v.bufs[i].dirty && InPrimary(g, v.bufs[i].key))
    ensures MirrorsFollow(g, w)
  {
    hide InPrimary, IsMirror;
    forall k: nat, b | DirtyIn(v, k, b) && InPrimary(g, b) ensures Dirty(w, b) {
      assert DirtyIn(w, k, b);
    }
    MirrorsKept(g, v, w);
  }

  /** All FAT copies of a drive are the same on disk. */
  ghost predicate CopiesAgree(g: map<int, FatArea>, disk: map<Block, Sector>, unit: int) {
    forall b, j: nat :: InPrimary(g, b) && b.unit == unit && 1 <= j < g[b.unit].copies
                        ==> var c := Copy(b, g[unit].size, j); c in disk && b in disk && disk[c] == disk[b]
  }

  /** The walks over all buffers that change their flags. */
  datatype Pass =
    FlushUnit(unit: int) | FlushAll | Dropping(unit: int, lo: nat, hi: nat, write: bool) | Forget(unit: int)

  /** What such a walk makes of a buffer: only its flags change, and only those of the buffers meant. A write that
      failed takes VALID away. */
  ghost predicate Treated(p: Pass, reliable: bool, a: Buffer, b: Buffer) {
    var flushed :=
      b == a.(dirty := false, valid := b.valid) && (if reliable then b.valid == a.valid else b.valid ==> a.valid);
    var cleared := b == a.(valid := false, dirty := false, fat := false, uncache := false);
    match p
    case FlushUnit(unit) => if a.key.unit == unit then flushed else b == a
    case FlushAll => b == a.(valid := false, dirty := false)
    case Dropping(unit, lo, hi, write) =>
      if a.valid && a.key.unit == unit && lo <= a.key.num <= hi then (if write then cleared else flushed) else b == a
    case Forget(unit) => if a.key.unit == unit then cleared else b == a
  }

  /** The walk has come to position `k` of the ring. */
  ghost predicate Passed(p: Pass, reliable: bool, was: seq<Buffer>, now: seq<Buffer>, order: seq<nat>, k: nat) {
    |was| == |now| && forall j :: 0 <= j < |order| && order[j] < |now| ==>
      if j < k then Treated(p, reliable, was[order[j]], now[order[j]]) else now[order[j]] == was[order[j]]
  }

  lemma PassBegins(p: Pass, reliable: bool, was: seq<Buffer>, order: seq<nat>)
    ensures Passed(p, reliable, was, was, order, 0)
  {
  }

  lemma PassGoesOn(p: Pass, reliable: bool, was: seq<Buffer>, mid: seq<Buffer>, now: seq<Buffer>, order: seq<nat>,
                   k: nat)
    requires Passed(p, reliable, was, mid, order, k) && k < |order| && NoDuplicates(order) && order[k] < |mid|
    requires |now| == |mid| && now == mid[order[k] := now[order[k]]]
    requires Treated(p, reliable, mid[order[k]], now[order[k]])
    ensures Passed(p, reliable, was, now, order, k + 1)
  {
    hide Treated;
    forall j | 0 <= j < |order| && order[j] < |now|
      ensures if j < k + 1 then Treated(p, reliable, was[order[j]], now[order[j]])
              else now[order[j]] == was[order[j]] {
      if j != k {
        assert order[j] != order[k];
      }
    }
  }

  lemma PassEnds(p: Pass, reliable: bool, was: seq<Buffer>, now: seq<Buffer>, order: seq<nat>)
    requires Passed(p, reliable, was, now, order, |order|)
    ensures forall i :: i in order && i < |now| ==> i < |was| && Treated(p, reliable, was[i], now[i])
  {
  }

  /** With no dirty buffer of a drive left, its disk is the logical disk and its FAT copies agree. */
  lemma CleanDrive(g: map<int, FatArea>, secsize: nat, v: View, unit: int)
    requires Coherent(g, secsize, v, {})
    requires forall i :: i in v.members && i < |v.bufs| && v.bufs[i].key.unit == unit ==>
              !(v.bufs[i].valid && v.bufs[i].dirty)
    ensures forall b :: b in v.logical && b.unit == unit ==> b in v.disk && v.disk[b] == v.logical[b]
    ensures MirrorsFollow(g, v) ==> CopiesAgree(g, v.disk, unit)
  {
    forall b | b in v.logical && b.unit == unit ensures b in v.disk && v.disk[b] == v.logical[b] {
      assert !Dirty(v, b);
    }
    if MirrorsFollow(g, v) {
      forall b, j: nat | InPrimary(g, b) && b.unit == unit && 1 <= j < g[b.unit].copies
        ensures var c := Copy(b, g[unit].size, j); c in v.disk && b in v.disk && v.disk[c] == v.disk[b]
      {
        assert MirrorSynced(g, v, b, j);
        assert !Dirty(v, b);
      }
    }
  }

  predicate InRange(b: Block, unit: int, lo: nat, hi: nat) {
    b.unit == unit && lo <= b.num <= hi
  }

  ghost predicate OutsideFat(g: map<int, FatArea>, unit: int, lo: nat, hi: nat) {
    forall b :: InRange(b, unit, lo, hi) ==> !InPrimary(g, b) && !IsMirror(g, b)
  }

  /** `m` with the sectors of `data` from block `lo` of drive `unit` on. */
  function Spliced(m: map<Block, Sector>, unit: int, lo: nat, data: seq<Sector>): map<Block, Sector> {
    map b | b in m :: if b.unit == unit && lo <= b.num < lo + |data| then data[b.num - lo] else m[b]
  }

  function At(unit: int, lo: nat, t: nat): Block {
    Block(unit, lo + t)
  }

  /** A transfer past the cache into a range the cache does not hold. */
  lemma TransferCoherent(g: map<int, FatArea>, secsize: nat, v: View, unit: int, lo: nat, data: seq<Sector>)
    requires Coherent(g, secsize, v, {}) && |data| > 0 && OutsideFat(g, unit, lo, lo + |data| - 1)
    requires forall t :: 0 <= t < |data| ==> |data[t]| == secsize
    requires forall i, b :: i in v.members && InRange(b, unit, lo, lo + |data| - 1) ==> !Holds(v.bufs[i], b)
    ensures var w := v.(disk := Spliced(v.disk, unit, lo, data), logical := Spliced(v.logical, unit, lo, data));
            Coherent(g, secsize, w, {}) && (MirrorsFollow(g, v) ==> MirrorsFollow(g, w))
  {
    var w := v.(disk := Spliced(v.disk, unit, lo, data), logical := Spliced(v.logical, unit, lo, data));
    forall k | k in w.members ensures BufferOk(g, secsize, w, w.bufs[k]) {
      assert BufferOk(g, secsize, v, v.bufs[k]);
      assert v.bufs[k].valid ==> Holds(v.bufs[k], v.bufs[k].key);
    }
    forall c | c in w.logical ensures w.disk[c] == w.logical[c] || Dirty(w, c) {
      if Dirty(v, c) {
        var k: nat :| DirtyIn(v, k, c);
        assert DirtyIn(w, k, c);
      }
    }
    if MirrorsFollow(g, v) {
      TransferMirrors(g, v, unit, lo, data);
    }
  }

  lemma TransferMirrors(g: map<int, FatArea>, v: View, unit: int, lo: nat, data: seq<Sector>)
    requires MirrorsFollow(g, v) && |data| > 0 && OutsideFat(g, unit, lo, lo + |data| - 1)
    ensures MirrorsFollow(g, v.(disk := Spliced(v.disk, unit, lo, data), logical := Spliced(v.logical, unit, lo, data)))
  {
    var w := v.(disk := Spliced(v.disk, unit, lo, data), logical := Spliced(v.logical, unit, lo, data));
    forall b, j: nat | InPrimary(g, b) && 1 <= j < g[b.unit].copies ensures MirrorSynced(g, w, b, j) {
      assert MirrorSynced(g, v, b, j);
      CopyIsMirror(g, b, j);
      assert !InRange(b, unit, lo, lo + |data| - 1);
      assert !InRange(Copy(b, g[b.unit].size, j), unit, lo, lo + |data| - 1);
      if Dirty(v, b) {
        var k: nat :| DirtyIn(v, k, b);
        assert DirtyIn(w, k, b);
      }
    }
  }

  /** A range without dirty buffers is up to date on disk. */
  lemma CleanRange(g: map<int, FatArea>, secsize: nat, v: View, unit: int, lo: nat, hi: nat)
    requires Coherent(g, secsize, v, {})
    requires forall i :: i in v.members && i < |v.bufs| && v.bufs[i].valid && InRange(v.bufs[i].key, unit, lo, hi)
               ==> !v.bufs[i].dirty
    ensures forall i :: i in v.members ==> i < |v.bufs|
    ensures forall b :: b in v.logical && InRange(b, unit, lo, hi) ==> b in v.disk && v.disk[b] == v.logical[b]
  {
    forall b | b in v.logical && InRange(b, unit, lo, hi) ensures b in v.disk && v.disk[b] == v.logical[b] {
      assert !Dirty(v, b);
    }
  }

  /** A buffer without unwritten data can leave the cache. */
  lemma RemoveCoherent(g: map<int, FatArea>, secsize: nat, v: View, members: seq<nat>, i: nat)
    requires Coherent(g, secsize, v, {}) && i in v.members && !(v.bufs[i].valid && v.bufs[i].dirty)
    requires forall k :: k in members <==> k in v.members && k != i
    ensures Coherent(g, secsize, v.(members := members), {})
    ensures MirrorsFollow(g, v) ==> MirrorsFollow(g, v.(members := members))
  {
    var w := v.(members := members);
    assert forall k: nat, b :: DirtyIn(v, k, b) ==> DirtyIn(w, k, b);
    forall k | k in w.members ensures BufferOk(g, secsize, w, w.bufs[k]) {
      assert BufferOk(g, secsize, v, v.bufs[k]);
    }
    if MirrorsFollow(g, v) {
      forall b, j: nat | InPrimary(g, b) && 1 <= j < g[b.unit].copies ensures MirrorSynced(g, w, b, j) {
        assert MirrorSynced(g, v, b, j);
      }
    }
  }

  /** Buffers at the addresses `base`, `size` bytes long, that a requested area touches. */
  predicate Touches(base: seq<nat>, size: nat, low: nat, high: nat, i: nat) {
    i < |base| && base[i] <= high && base[i] + size > low
  }

  lemma TouchesIs(base: seq<nat>, size: nat, low: nat, high: nat, i: nat)
    requires i < |base|
    ensures Touches(base, size, low, high, i) <==> !(base[i] > high || base[i] + size <= low)
  {
  }

  /** The buffers of `order` that the area leaves alone, in the same order. */
  function Untouched(base: seq<nat>, size: nat, low: nat, high: nat, order: seq<nat>): seq<nat> {
    if order == [] then []
    else (if Touches(base, size, low, high, order[0]) then [] else [order[0]])
         + Untouched(base, size, low, high, order[1..])
  }

  lemma {:induction false} UntouchedElements(base: seq<nat>, size: nat, low: nat, high: nat, order: seq<nat>, x: nat)
    ensures x in Untouched(base, size, low, high, order) <==> x in order && !Touches(base, size, low, high, x)
  {
    if order != [] {
      UntouchedElements(base, size, low, high, order[1..], x);
      assert order == [order[0]] + order[1..];
    }
  }

  /** In numbers: what stays lies above the area or ends before it. */
  lemma Stays(base: seq<nat>, size: nat, low: nat, high: nat, order: seq<nat>)
    requires forall i :: i in order ==> i < |base|
    ensures forall i :: i in Untouched(base, size, low, high, order) <==>
              i in order && i < |base| && (base[i] > high || base[i] + size <= low)
  {
    hide Touches, Untouched;
    forall i: nat
      ensures i in Untouched(base, size, low, high, order) <==>
              i in order && i < |base| && (base[i] > high || base[i] + size <= low)
    {
      UntouchedElements(base, size, low, high, order, i);
      if i < |base| {
        TouchesIs(base, size, low, high, i);
      }
    }
  }

  lemma Survives(base: seq<nat>, size: nat, low: nat, high: nat, order: seq<nat>)
    requires exists i :: i in order && i < |base| && (base[i] > high || base[i] + size <= low)
    ensures exists i :: i in order && !Touches(base, size, low, high, i)
  {
    var i :| i in order && i < |base| && (base[i] > high || base[i] + size <= low);
    TouchesIs(base, size, low, high, i);
  }

  /** How far `AllocateHMASpace` has come: of the ring `order` it has kept `kept` and still has to look at `rest`. */
  ghost predicate Walked(base: seq<nat>, size: nat, low: nat, high: nat, order: seq<nat>, kept: seq<nat>,
                         rest: seq<nat>) {
    kept + Untouched(base, size, low, high, rest) == Untouched(base, size, low, high, order)
  }

  lemma WalkStarts(base: seq<nat>, size: nat, low: nat, high: nat, order: seq<nat>)
    requires order != []
    ensures Walked(base, size, low, high, order, [], order) && [] + order == order && order[0] in order
  {
    assert [] + Untouched(base, size, low, high, order) == Untouched(base, size, low, high, order);
  }

  lemma WalkEnds(base: seq<nat>, size: nat, low: nat, high: nat, order: seq<nat>, kept: seq<nat>, rest: seq<nat>)
    requires Walked(base, size, low, high, order, kept, rest) && rest == []
    ensures kept + rest == Untouched(base, size, low, high, order)
  {
    assert Untouched(base, size, low, high, rest) == rest;
  }

  /** One step of the walk; a buffer in the way leaves the ring. */
  lemma WalkGoesOn(base: seq<nat>, size: nat, low: nat, high: nat, order: seq<nat>, kept: seq<nat>, rest: seq<nat>,
                   survivor: nat)
    requires rest != [] && Walked(base, size, low, high, order, kept, rest)
    requires survivor in kept + rest && !Touches(base, size, low, high, survivor)
    ensures |kept| < |kept + rest| && (kept + rest)[|kept|] == rest[0]
    ensures |rest| > 1 ==> |kept| + 1 < |kept + rest| && (kept + rest)[|kept| + 1] == rest[1..][0]
    ensures |rest| > 1 <==> rest[1..] != []
    ensures if Touches(base, size, low, high, rest[0])
            then |kept + rest| > 1 && Without(kept + rest, |kept|) == kept + rest[1..] && survivor in kept + rest[1..]
                 && Walked(base, size, low, high, order, kept, rest[1..])
            else kept + rest == kept + [rest[0]] + rest[1..]
                 && Walked(base, size, low, high, order, kept + [rest[0]], rest[1..])
  {
    WalkSlices(kept, rest, survivor);
    UntouchedStep(base, size, low, high, kept, rest);
    if Touches(base, size, low, high, rest[0]) {
      WithoutSurvivor(kept, rest, survivor);
    }
  }

  lemma WalkSlices(kept: seq<nat>, rest: seq<nat>, survivor: nat)
    requires rest != []
    ensures |kept| < |kept + rest| && (kept + rest)[|kept|] == rest[0]
    ensures |rest| > 1 ==> |kept| + 1 < |kept + rest| && (kept + rest)[|kept| + 1] == rest[1..][0]
    ensures kept + rest == kept + [rest[0]] + rest[1..]
    ensures Without(kept + rest, |kept|) == kept + rest[1..]
  {
  }

  lemma UntouchedStep(base: seq<nat>, size: nat, low: nat, high: nat, kept: seq<nat>, rest: seq<nat>)
    requires rest != []
    ensures var u := Untouched(base, size, low, high, rest[1..]);
            kept + Untouched(base, size, low, high, rest) ==
            if Touches(base, size, low, high, rest[0]) then kept + u else kept + [rest[0]] + u
  {
    var u := Untouched(base, size, low, high, rest[1..]);
    assert kept + ([rest[0]] + u) == kept + [rest[0]] + u;
    assert [] + u == u;
  }

  lemma WithoutSurvivor(kept: seq<nat>, rest: seq<nat>, survivor: nat)
    requires rest != [] && survivor in kept + rest && survivor != rest[0]
    ensures survivor in kept + rest[1..] && |kept + rest| > 1
  {
    assert kept + rest == kept + [rest[0]] + rest[1..];
  }

  /** One `flush1`: both invariants of the cache survive an error-free write-back. */
  lemma FlushStep(g: map<int, FatArea>, secsize: nat, v: View, i: nat, disk: map<Block, Sector>, ok: bool)
    requires Coherent(g, secsize, v, {}) && i in v.members
    requires forall b :: b in disk ==> |disk[b]| == secsize
    requires if v.bufs[i].valid && v.bufs[i].dirty then Written(g, v.bufs[i], v.disk, disk, ok)
             else ok && disk == v.disk
    ensures Coherent(g, secsize, Flushed(v, i, disk, ok), {})
    ensures ok && MirrorsFollow(g, v) ==> MirrorsFollow(g, Flushed(v, i, disk, ok))
  {
    FlushCoherent(g, secsize, v, i, disk, ok);
    if ok && MirrorsFollow(g, v) {
      FlushMirrors(g, secsize, v, i, disk);
    }
  }

  /** An empty buffer of `config_init_buffers`. */
  function EmptyBuffer(secsize: nat): Buffer {
    Buffer(Block(0, 0), false, false, false, false, 1, 0, seq(secsize, j => 0))
  }

  /** A cache without a valid buffer is coherent with its disk. */
  lemma FreshCoherent(g: map<int, FatArea>, secsize: nat, v: View)
    requires forall b :: b in v.disk ==> |v.disk[b]| == secsize
    requires forall u :: u in g ==> g[u].copies >= 1
    requires forall b :: InPrimary(g, b) || IsMirror(g, b) ==> b in v.disk
    requires v.logical == map b | b in v.disk && !IsMirror(g, b) :: v.disk[b]
    requires forall i :: i in v.members ==> i < |v.bufs| && v.bufs[i] == EmptyBuffer(secsize)
    ensures Coherent(g, secsize, v, {})
  {
    hide InPrimary, IsMirror;
  }

  /** With no valid buffer, the FAT copies follow their primaries just when they agree on disk. */
  lemma FreshMirrors(g: map<int, FatArea>, v: View)
    requires forall i :: i in v.members ==> i < |v.bufs| && !v.bufs[i].valid
    requires forall u :: CopiesAgree(g, v.disk, u)
    ensures MirrorsFollow(g, v)
  {
    forall b, j: nat | InPrimary(g, b) && 1 <= j < g[b.unit].copies ensures MirrorSynced(g, v, b, j) {
      assert CopiesAgree(g, v.disk, b.unit);
      assert Copy(b, g[b.unit].size, j) in v.disk;
    }
  }

  /** The loop of `config_init_buffers`: the buffers are linked in the order of their addresses. */
  method LinkBuffers(n: nat) returns (next: seq<nat>, prev: seq<nat>)
    requires n >= 2
    ensures Linked(next, prev, seq(n, i => i)) && |next| == n
  {
    next, prev := seq(n, i => 0), seq(n, i => 0);
    prev := prev[0 := n - 1];
    var i := 0;
    while i < n - 1
      invariant 0 <= i <= n - 1 && |next| == |prev| == n && prev[0] == n - 1
      invariant forall k :: 0 <= k < i ==> next[k] == k + 1
      invariant forall k :: 1 <= k <= i ==> prev[k] == k - 1
    {
      next := next[i := i + 1];
      prev := prev[i + 1 := i];
      i := i + 1;
    }
    next := next[n - 1 := 0];
    ghost var order := seq(n, i => i);
    forall k | 0 <= k < n ensures LinkedAt(next, prev, order, k) {
    }
  }

  class BufferCache {
    const secsize: nat
    const geometry: map<int, FatArea>
    /** Whether the drivers can be trusted; where not, any transfer may fail. */
    const reliableReads: bool
    const reliableWrites: bool

    var disk: map<Block, Sector>
    var bufs: seq<Buffer>
    var next: seq<nat>
    var prev: seq<nat>
    var first: nat
    var count: nat

    /** Where the buffers lie, and whether that is in high memory. */
    const base: seq<nat>
    const bufsize: nat
    const inHma: bool

    /** Buffers in ring order from `first`. */
    ghost var ring: seq<nat>
    /** The disk as the kernel sees it through the cache, FAT mirrors left out. */
    ghost var logical: map<Block, Sector>

    /** `config_init_buffers`: `n` empty buffers, linked in the order of their addresses. */
    constructor (n: nat, secsize: nat, geometry: map<int, FatArea>, disk: map<Block, Sector>, base: seq<nat>,
                 bufsize: nat,
                 inHma: bool, reliableReads: bool, reliableWrites: bool)
      requires n >= 2
      requires forall b :: b in disk ==> |disk[b]| == secsize
      requires forall u :: u in geometry ==> geometry[u].copies >= 1
      requires forall b :: InPrimary(geometry, b) || IsMirror(geometry, b) ==> b in disk
      ensures Valid() && ring == seq(n, i => i) && this.disk == disk
      ensures forall i :: i in ring ==> i < |bufs| && !bufs[i].valid
      ensures logical == map b | b in disk && !IsMirror(geometry, b) :: disk[b]
      ensures (forall u :: CopiesAgree(geometry, disk, u)) ==> MirrorsFollow(geometry, State())
      ensures this.secsize == secsize && this.geometry == geometry
      ensures this.reliableReads == reliableReads && this.reliableWrites == reliableWrites
    {
      hide *;
      var forward, back := LinkBuffers(n);
      this.secsize, this.geometry, this.disk, this.base := secsize, geometry, disk, base;
      this.bufsize, this.inHma, this.reliableReads, this.reliableWrites
        := bufsize, inHma, reliableReads, reliableWrites;
      bufs := seq(n, i => EmptyBuffer(secsize));
      next, prev, first, count := forward, back, 0, n;
      ring := seq(n, i => i);
      logical := map b | b in disk && !IsMirror(geometry, b) :: disk[b];
      new;
      Fresh();
    }

    lemma Fresh()
      requires Linked(next, prev, ring) && |next| == |ring| == |bufs| == count && count >= 2 && first == 0
      requires forall i :: 0 <= i < |ring| ==> ring[i] == i && bufs[i] == EmptyBuffer(secsize)
      requires forall b :: b in disk ==> |disk[b]| == secsize
      requires forall u :: u in geometry ==> geometry[u].copies >= 1
      requires forall b :: InPrimary(geometry, b) || IsMirror(geometry, b) ==> b in disk
      requires logical == map b | b in disk && !IsMirror(geometry, b) :: disk[b]
      ensures Valid() && forall i :: i in ring ==> i < |bufs| && !bufs[i].valid
      ensures (forall u :: CopiesAgree(geometry, disk, u)) ==> MirrorsFollow(geometry, State())
    {
      FreshCoherent(geometry, secsize, State());
      if forall u :: CopiesAgree(geometry, disk, u) {
        FreshMirrors(geometry, State());
      }
    }

    ghost function State(): View
      reads this
    {
      View(disk, bufs, ring, logical)
    }

    ghost predicate RingOk()
      reads this
    {
      Linked(next, prev, ring) && |bufs| == |next| && first == ring[0] && count == |ring|
    }

    ghost predicate ValidBut(pending: set<Block>)
      reads this
    {
      RingOk() && Coherent(geometry, secsize, State(), pending)
    }

    ghost predicate Valid()
      reads this
    {
      ValidBut({})
    }

    lemma Members()
      requires RingOk()
      ensures |ring| > 0 && first == ring[0] && |next| == |prev| == |bufs| && NoDuplicates(ring)
      ensures forall i :: i in ring ==> i < |bufs|
      ensures forall k :: 0 <= k < |ring| ==> ring[k] < |bufs|
    {
    }

    lemma PendingValid(b: Block)
      requires RingOk() && Coherent(geometry, secsize, State(), {b})
      ensures ValidBut({b})
    {
    }

    lemma ValidIs()
      requires Valid()
      ensures RingOk() && Coherent(geometry, secsize, State(), {}) && State() == View(disk, bufs, ring, logical)
    {
    }

    /** One sector to the disk; a failed transfer leaves the sector unpredictable. */
    method WriteDisk(b: Block, s: Sector) returns (ok: bool)
      requires |s| == secsize && forall c :: c in disk ==> |disk[c]| == secsize
      modifies this`disk
      ensures disk.Keys == old(disk.Keys) && forall c :: c in disk ==> |disk[c]| == secsize
      ensures forall c :: c in disk && c != b ==> disk[c] == old(disk)[c]
      ensures ok ==> b in disk && disk[b] == s
      ensures reliableWrites && b in old(disk) ==> ok
    {
      ok := reliableWrites;
      if !ok {
        ok := *;
      }
      if b !in disk {
        ok := false;
      } else if ok {
        disk := disk[b := s];
      } else {
        var junk: Sector := *;
        disk := disk[b := if |junk| == secsize then junk else s];
      }
    }

    /** One sector from the disk. */
    method ReadDisk(b: Block) returns (ok: bool, s: Sector)
      ensures ok ==> b in disk && s == disk[b]
      ensures reliableReads && b in disk ==> ok
    {
      ok := reliableReads;
      if !ok {
        ok := *;
      }
      if b !in disk {
        ok := false;
      }
      s := if ok then disk[b] else [];
    }

    /** The write loop of `flush1`. */
    method WriteCopies(x: Buffer) returns (ok: bool)
      requires |x.data| == secsize && forall c :: c in disk ==> |disk[c]| == secsize
      requires x.fat ==> x.copies >= 1
      modifies this`disk
      ensures forall c :: c in disk ==> |disk[c]| == secsize
      ensures Written(geometry, x, old(disk), disk, ok)
      ensures (&& reliableWrites && x.key in old(disk)
               && (x.fat ==> forall j: nat :: 1 <= j < x.copies ==> Copy(x.key, x.stride, j) in old(disk))) ==> ok
    {
      ok := true;
      var copies, stride := 1, 0;
      if x.fat {
        copies, stride := x.copies, x.stride;
      }
      var at := x.key.num;
      var j := 0;
      while j < copies
        invariant 0 <= j <= copies && at == x.key.num + j * stride
        invariant disk.Keys == old(disk.Keys) && forall c :: c in disk ==> |disk[c]| == secsize
        invariant forall b :: b in disk && disk[b] != old(disk)[b] ==>
                  exists k: nat :: k < j && b == Copy(x.key, stride, k)
        invariant ok ==> forall k: nat :: k < j ==> var c := Copy(x.key, stride, k); c in disk && disk[c] == x.data
        invariant reliableWrites && (forall k: nat :: k < j ==> Copy(x.key, stride, k) in old(disk)) ==> ok
      {
        assert Block(x.key.unit, at) == Copy(x.key, stride, j);
        var done := WriteDisk(Block(x.key.unit, at), x.data);
        if !done {
          ok := false;
        }
        MulStep(j, stride);
        at := at + stride;
        j := j + 1;
      }
      assert Copy(x.key, stride, 0) == x.key;
      forall b | b in disk && disk[b] != old(disk)[b]
        ensures b == x.key || (x.fat && exists k: nat :: 1 <= k < x.copies && b == Copy(x.key, x.stride, k))
      {
        var k: nat :| k < copies && b == Copy(x.key, stride, k);
      }
    }

    /** `flush1`: writes a dirty buffer and, for a FAT sector, all its copies. */
    method Flush1(i: nat) returns (ok: bool)
      requires Valid() && i in ring
      modifies this`disk, this`bufs, this`logical
      ensures Valid()
      ensures bufs == old(bufs)[i := old(bufs)[i].(dirty := false, valid := old(bufs)[i].valid && ok)]
      ensures if old(bufs)[i].valid && old(bufs)[i].dirty then Written(geometry, old(bufs)[i], old(disk), disk, ok)
              else ok && disk == old(disk)
      ensures logical.Keys == old(logical.Keys) && disk.Keys == old(disk.Keys)
      ensures ok ==> logical == old(logical)
      ensures forall b :: b in logical && b != old(bufs)[i].key ==> logical[b] == old(logical)[b]
      ensures reliableWrites ==> ok
      ensures ok && MirrorsFollow(geometry, old(State())) ==> MirrorsFollow(geometry, State())
    {
      hide Coherent, MirrorsFollow, InPrimary, IsMirror, Written, Linked, CopiesAgree, OutsideFat;
      Members();
      var x := bufs[i];
      ghost var v := State();
      CopiesExist(geometry, secsize, v, i);
      ok := true;
      if x.valid && x.dirty {
        ok := WriteCopies(x);
      }
      bufs := bufs[i := x.(dirty := false, valid := x.valid && ok)];
      if !ok && x.key in logical && x.key in disk {
        logical := logical[x.key := disk[x.key]];
      }
      assert State() == Flushed(v, i, disk, ok);
      FlushStep(geometry, secsize, v, i, disk, ok);
    }

    /** `move_buffer` to the front, with the change of `firstbuf` that goes with it. */
    method MoveToFront(bp: nat, ghost k: nat)
      requires RingOk() && 0 < k < |ring| && bp == ring[k]
      modifies this`next, this`prev, this`first, this`ring
      ensures RingOk() && ring == Fronted(old(ring), k)
    {
      ghost var order := ring;
      UnlinkKeepsRing(next, prev, order, k);
      WithoutElements(order, k);
      var firstbp := first;
      assert Without(order, k)[0] == firstbp;
      var p, n := prev[bp], next[bp];
      prev := prev[n := p];
      next := next[p := n];
      InsertKeepsRing(next, prev, Without(order, k), bp);
      var l := prev[firstbp];
      prev := prev[bp := l];
      next := next[bp := firstbp];
      prev := prev[firstbp := bp];
      next := next[l := bp];
      first := bp;
      ring := Fronted(order, k);
    }

    /** What the walk of `searchblock` remembers after `k` buffers: the number of FAT buffers, and the last buffer
        without a FAT sector and the last one marked UNCACHE, with their places. */
    ghost predicate Seen(k: nat, fatCount: nat, lastNonFat: int, uncached: int, nonFatAt: int, uncachedAt: int)
      reads this
    {
      && k <= |ring| && (forall i :: 0 <= i < |ring| ==> ring[i] < |bufs|)
      && uncachedAt == LastUncached(bufs, ring, k) && uncached == (if uncachedAt < 0 then -1 else ring[uncachedAt])
      && nonFatAt == LastNonFat(bufs, ring, k) && lastNonFat == (if nonFatAt < 0 then -1 else ring[nonFatAt])
      && fatCount == FatCount(bufs, ring, k)
    }

    lemma SeenStart()
      requires RingOk()
      ensures Seen(0, 0, -1, -1, -1, -1)
    {
    }

    lemma SeenNext(k: nat, fatCount: nat, lastNonFat: int, uncached: int, nonFatAt: int, uncachedAt: int)
      requires Seen(k, fatCount, lastNonFat, uncached, nonFatAt, uncachedAt) && k < |ring|
      ensures ring[k] < |bufs|
      ensures var bp := ring[k];
              Seen(k + 1, if bufs[bp].fat then fatCount + 1 else fatCount, if bufs[bp].fat then lastNonFat else bp,
                   if bufs[bp].uncache then bp else uncached, if bufs[bp].fat then nonFatAt else k,
                   if bufs[bp].uncache then k else uncachedAt)
    {
      ScanStep(bufs, ring, k);
    }

    /** The walk of `searchblock` over the whole ring, which changes nothing. */
    method ScanRing(b: Block) returns (hit: bool, bp: nat, ghost k: nat)
      requires RingOk()
      ensures k < |ring| && bp == ring[k]
      ensures hit ==> Holds(bufs[bp], b)
      ensures !hit ==> k == Victim(bufs, ring) && forall i :: 0 <= i < |ring| ==> !Holds(bufs[ring[i]], b)
    {
      hide *;
      Members();
      SeenStart();
      var fatCount: nat := 0;
      var lastNonFat: int, uncached: int := -1, -1;
      ghost var nonFatAt: int, uncachedAt: int := -1, -1;
      bp, k := first, 0;
      while true
        invariant 0 <= k < |ring| && bp == ring[k] && (k > 0 ==> bp != first)
        invariant forall i :: 0 <= i < k ==> !Holds(bufs[ring[i]], b)
        invariant Seen(k, fatCount, lastNonFat, uncached, nonFatAt, uncachedAt)
        decreases |ring| - k
      {
        SeenNext(k, fatCount, lastNonFat, uncached, nonFatAt, uncachedAt);
        if Holds(bufs[bp], b) {
          return true, bp, k;
        }
        if bufs[bp].uncache {
          uncached, uncachedAt := bp, k;
        }
        if bufs[bp].fat {
          fatCount := fatCount + 1;
        } else {
          lastNonFat, nonFatAt := bp, k;
        }
        StepAt(k);
        bp := next[bp];
        k := k + 1;
        if bp == first {
          break;
        }
      }
      hit := false;
      bp, k := Recycled(fatCount, lastNonFat, uncached, nonFatAt, uncachedAt);
    }

    /** The buffer to recycle, from what the walk has seen. */
    method Recycled(fatCount: nat, lastNonFat: int, uncached: int, ghost nonFatAt: int, ghost uncachedAt: int)
      returns (bp: nat, ghost k: nat)
      requires RingOk() && Seen(|ring|, fatCount, lastNonFat, uncached, nonFatAt, uncachedAt)
      ensures k < |ring| && bp == ring[k] < |bufs| && (forall i :: 0 <= i < |ring| ==> ring[i] < |bufs|)
      ensures k == Victim(bufs, ring)
    {
      SeenAll(fatCount, lastNonFat, uncached, nonFatAt, uncachedAt);
      hide *;
      Members();
      LastIs();
      if uncached >= 0 {
        bp, k := uncached, uncachedAt;
      } else if bufs[first].fat && fatCount < 3 && lastNonFat >= 0 {
        bp, k := lastNonFat, nonFatAt;
      } else {
        bp, k := prev[first], |ring| - 1;
      }
    }

    lemma SeenAll(fatCount: nat, lastNonFat: int, uncached: int, nonFatAt: int, uncachedAt: int)
      requires RingOk() && Seen(|ring|, fatCount, lastNonFat, uncached, nonFatAt, uncachedAt)
      ensures |ring| > 0 && first < |bufs| && forall i :: 0 <= i < |ring| ==> ring[i] < |bufs|
      ensures Victim(bufs, ring) == if uncached >= 0 then uncachedAt
                                    else if bufs[first].fat && fatCount < 3 && lastNonFat >= 0 then nonFatAt
                                    else |ring| - 1
      ensures uncached >= 0 ==> 0 <= uncachedAt < |ring| && uncached == ring[uncachedAt]
      ensures lastNonFat >= 0 ==> 0 <= nonFatAt < |ring| && lastNonFat == ring[nonFatAt]
    {
    }

    lemma LastIs()
      requires RingOk()
      ensures |ring| > 0 && first < |prev| && prev[first] == ring[|ring| - 1]
    {
      assert LinkedAt(next, prev, ring, |ring| - 1);
    }

    /** `searchblock`: moves the holder of `b`, or else the buffer to recycle, to the front;
        only in the second case is it marked UNCACHE. */
    method SearchBlock(b: Block) returns (bp: nat, ghost k: nat)
      requires Valid()
      modifies this`bufs, this`next, this`prev, this`first, this`ring
      ensures Valid()
      ensures k < |old(ring)| && bp == old(ring)[k] == first && ring == Fronted(old(ring), k) && bp in ring
      ensures (forall i :: i in ring ==> i < |bufs|) && (k > 0 ==> first != old(first))
      ensures |ring| == |old(ring)| && old(first) == old(ring)[0]
      ensures bp < |old(bufs)| && bufs == old(bufs)[bp := old(bufs)[bp].(uncache := !Holds(old(bufs)[bp], b))]
      ensures !Holds(bufs[bp], b) ==> k == Victim(old(bufs), old(ring)) && forall i :: i in ring ==> !Holds(bufs[i], b)
      ensures MirrorsFollow(geometry, old(State())) ==> MirrorsFollow(geometry, State())
    {
      hide Coherent, MirrorsFollow, Victim, InPrimary, IsMirror, Written, Linked, CopiesAgree, OutsideFat;
      Members();
      ghost var v := State();
      var hit;
      hit, bp, k := ScanRing(b);
      bufs := bufs[bp := bufs[bp].(uncache := !hit)];
      if bp != first {
        MoveToFront(bp, k);
      } else {
        assert ring[0] == ring[k];
        assert ring == Fronted(ring, 0);
      }
      FrontedElements(v.members, k);
      ReorderCoherent(geometry, secsize, v, State(), {});
    }

    /** The end of `getblk`: the clean buffer `bp` becomes the buffer of block `b`. */
    method Install(bp: nat, b: Block, data: Sector)
      requires Valid() && bp in ring && !(bufs[bp].valid && bufs[bp].dirty) && b in disk && |data| == secsize
      requires forall i :: i in ring ==> !Holds(bufs[i], b)
      modifies this`bufs, this`logical
      ensures bufs == old(bufs)[bp := old(bufs)[bp].(key := b, valid := true, dirty := false, fat := false,
                uncache := false, data := data)]
      ensures ValidBut(if data == disk[b] then {} else {b})
      ensures data == disk[b] ==> logical == old(logical)
      ensures b in old(logical) ==> logical == old(logical)[b := data]
      ensures b !in old(logical) ==> logical == old(logical)
      ensures MirrorsFollow(geometry, old(State())) ==> MirrorsFollow(geometry, State())
    {
      hide Coherent, MirrorsFollow, InPrimary, IsMirror, Written, Linked, CopiesAgree, OutsideFat;
      Members();
      ghost var v := State();
      var x := bufs[bp].(key := b, valid := true, dirty := false, fat := false, uncache := false, data := data);
      ReuseCoherent(geometry, secsize, v, bp, x);
      NotHeld(geometry, secsize, v, b);
      bufs := bufs[bp := x];
      logical := SetBlock(logical, b, data);
      assert State() == Changed(v, bp, x, logical);
    }

    /** `getblk` after a miss: the buffer is written back, and filled from disk unless it is to be overwritten. */
    method Refill(bp: nat, b: Block, overwrite: bool) returns (ok: bool)
      requires Valid() && bp in ring && bp < |bufs| && (overwrite ==> b in disk)
      requires forall i :: i in ring ==> i < |bufs| && !Holds(bufs[i], b)
      modifies this`bufs, this`disk, this`logical
      ensures bp < |bufs| == |old(bufs)| && bufs == old(bufs)[bp := bufs[bp]]
      ensures ok ==> Holds(bufs[bp], b) && !bufs[bp].uncache
      ensures !ok && reliableWrites ==> bufs[bp] == old(bufs)[bp].(dirty := false)
      ensures Valid() || (ok && overwrite && ValidBut({b}))
      ensures logical.Keys == old(logical.Keys)
      ensures reliableWrites ==> forall c :: c in logical && !(overwrite && c == b) ==> logical[c] == old(logical)[c]
      ensures reliableWrites && !overwrite ==> logical == old(logical)
      ensures reliableWrites && b in old(disk) && (overwrite || reliableReads) ==> ok
      ensures reliableWrites && MirrorsFollow(geometry, old(State())) ==> MirrorsFollow(geometry, State())
    {
      hide Written, Coherent, MirrorsFollow, Victim, Linked, Fronted, IsMirror, InPrimary, CopiesAgree, OutsideFat;
      ok := Flush1(bp);
      if !ok {
        return;
      }
      CoherentBounds(geometry, secsize, State(), {}, bp);
      var data := bufs[bp].data;
      if !overwrite {
        ok, data := ReadDisk(b);
        if !ok {
          return;
        }
      }
      Install(bp, b, data);
    }

    /** `getblk`: the buffer of block `b`, read from disk unless it is to be overwritten. */
    method GetBlk(b: Block, overwrite: bool) returns (ok: bool, bp: nat, ghost k: nat)
      requires Valid() && (overwrite ==> b in disk)
      modifies this`bufs, this`next, this`prev, this`first, this`ring, this`disk, this`logical
      ensures k < |old(ring)| && ring == Fronted(old(ring), k) && |bufs| == |old(bufs)|
      ensures ok ==> bp == first && bp < |bufs| && Holds(bufs[bp], b) && !bufs[bp].uncache
      ensures !ok && reliableWrites ==>
                bp == first && bp < |bufs| && bufs == old(bufs)[bp := old(bufs)[bp].(dirty := false, uncache := true)]
      ensures Valid() || (ok && overwrite && ValidBut({b}))
      ensures forall i :: i in ring && i != first ==> i < |bufs| && bufs[i] == old(bufs)[i]
      ensures logical.Keys == old(logical.Keys)
      ensures reliableWrites ==> forall c :: c in logical && !(overwrite && c == b) ==> logical[c] == old(logical)[c]
      ensures reliableWrites && !overwrite ==> logical == old(logical)
      ensures reliableWrites && b in old(disk) && (overwrite || reliableReads) ==> ok
      ensures old(|ring| > 1 && !bufs[first].uncache && !Holds(bufs[first], b)) ==> first != old(first)
      ensures reliableWrites && MirrorsFollow(geometry, old(State())) ==> MirrorsFollow(geometry, State())
    {
      hide *;
      RingParts();
      Members();
      ghost var was := bufs;
      bp, k := SearchBlock(b);
      MarkHolds(was[bp], bufs[bp].uncache, b);
      if !bufs[bp].uncache {
        return true, bp, k;
      }
      ok := Refill(bp, b, overwrite);
    }

    /** The tags `getFATblock` puts on a buffer. */
    method TagFat(bp: nat)
      requires Valid() && bp in ring && bufs[bp].valid && InPrimary(geometry, bufs[bp].key)
      modifies this`bufs
      ensures Valid()
      ensures var g := geometry[old(bufs)[bp].key.unit];
              bufs == old(bufs)[bp := old(bufs)[bp].(fat := true, copies := g.copies, stride := g.size)]
      ensures MirrorsFollow(geometry, old(State())) ==> MirrorsFollow(geometry, State())
    {
      ghost var v := State();
      var g := geometry[bufs[bp].key.unit];
      bufs := bufs[bp := bufs[bp].(fat := true, copies := g.copies, stride := g.size)];
      TagCoherent(geometry, secsize, v, State(), bp);
    }

    /** Stores into a buffer and marks it dirty: the block of the logical disk changes. */
    method Store(bp: nat, data: Sector)
      requires bp < |bufs| && ValidBut({bufs[bp].key}) && bp in ring && bufs[bp].valid && |data| == secsize
      modifies this`bufs, this`logical
      ensures Valid()
      ensures bufs == old(bufs)[bp := old(bufs)[bp].(dirty := true, data := data)]
      ensures var b := old(bufs)[bp].key; logical == if b in old(logical) then old(logical)[b := data] else old(logical)
      ensures (&& MirrorsFollow(geometry, old(State())) && !IsMirror(geometry, old(bufs)[bp].key)
               && (InPrimary(geometry, old(bufs)[bp].key) ==> old(bufs)[bp].fat)) ==> MirrorsFollow(geometry, State())
    {
      hide Coherent, MirrorsFollow, InPrimary, IsMirror, Written, Linked, CopiesAgree, OutsideFat;
      Members();
      ghost var v := State();
      var x := bufs[bp].(dirty := true, data := data);
      CoherentBounds(geometry, secsize, v, {x.key}, bp);
      StoreCoherent(geometry, secsize, v, bp, x);
      bufs := bufs[bp := x];
      logical := SetBlock(logical, x.key, data);
      assert State() == Changed(v, bp, x, logical);
    }

    /** Marks a buffer for early reuse. */
    method MarkUncache(bp: nat)
      requires Valid() && bp in ring
      modifies this`bufs
      ensures Valid() && bufs == old(bufs)[bp := old(bufs)[bp].(uncache := true)]
      ensures MirrorsFollow(geometry, old(State())) ==> MirrorsFollow(geometry, State())
    {
      ghost var v := State();
      bufs := bufs[bp := bufs[bp].(uncache := true)];
      ReorderCoherent(geometry, secsize, v, State(), {});
    }

    /** Position `k` of the ring after a walk step from position `k - 1`, or the end of the walk. */
    lemma StepAt(k: nat)
      requires RingOk() && k < |ring|
      ensures ring[k] < |bufs| && ring[k] < |next|
      ensures next[ring[k]] == first <==> k + 1 == |ring|
      ensures k + 1 < |ring| ==> next[ring[k]] == ring[k + 1]
    {
      WalkStep(next, prev, ring, k);
    }

    /** The body of the loop of `flush_buffers`. */
    method FlushOne(bp: nat, unit: int) returns (ok: bool)
      requires Valid() && bp in ring
      modifies this`disk, this`bufs, this`logical
      ensures Valid() && bp < |bufs| == |old(bufs)| && bufs == old(bufs)[bp := bufs[bp]]
      ensures Treated(FlushUnit(unit), reliableWrites, old(bufs)[bp], bufs[bp])
      ensures disk.Keys == old(disk.Keys) && logical.Keys == old(logical.Keys)
      ensures (reliableWrites ==> ok) && (ok ==> logical == old(logical))
      ensures ok && MirrorsFollow(geometry, old(State())) ==> MirrorsFollow(geometry, State())
      ensures bufs[bp].key.unit == unit ==> !(bufs[bp].valid && bufs[bp].dirty)
    {
      hide Written, Coherent, MirrorsFollow, InPrimary, IsMirror, Linked, CopiesAgree, OutsideFat;
      Members();
      ok := true;
      if bufs[bp].key.unit == unit {
        ok := Flush1(bp);
      }
    }

    /** The body of the loop of `flush`. */
    method GiveUp(bp: nat) returns (ok: bool)
      requires Valid() && bp in ring
      modifies this`disk, this`bufs, this`logical
      ensures Valid() && bp < |bufs| == |old(bufs)| && bufs == old(bufs)[bp := bufs[bp]]
      ensures Treated(FlushAll, reliableWrites, old(bufs)[bp], bufs[bp]) && !bufs[bp].valid
      ensures disk.Keys == old(disk.Keys) && logical.Keys == old(logical.Keys)
      ensures (reliableWrites ==> ok) && (ok ==> logical == old(logical))
      ensures ok && MirrorsFollow(geometry, old(State())) ==> MirrorsFollow(geometry, State())
    {
      hide Written, Coherent, MirrorsFollow, InPrimary, IsMirror, Linked, CopiesAgree, OutsideFat;
      Members();
      ok := Flush1(bp);
      Drop(bp, bufs[bp].(valid := false));
    }

    /** The body of the loop of `setinvld`. */
    method ForgetOne(bp: nat, unit: int)
      requires Valid() && bp in ring
      modifies this`bufs, this`logical
      ensures Valid() && bp < |bufs| == |old(bufs)| && bufs == old(bufs)[bp := bufs[bp]]
      ensures Treated(Forget(unit), reliableWrites, old(bufs)[bp], bufs[bp])
      ensures bufs[bp].key.unit == unit ==> !bufs[bp].valid
      ensures logical.Keys == old(logical.Keys)
      ensures forall b :: b in logical && b.unit != unit ==> logical[b] == old(logical)[b]
    {
      hide Written, Coherent, MirrorsFollow, InPrimary, IsMirror, Linked, CopiesAgree, OutsideFat;
      Members();
      if bufs[bp].key.unit == unit {
        Drop(bp, bufs[bp].(valid := false, dirty := false, fat := false, uncache := false));
      }
    }

    /** `flush_buffers`: writes back the dirty buffers of one drive. */
    method FlushBuffers(unit: int) returns (ok: bool)
      requires Valid()
      modifies this`disk, this`bufs, this`logical
      ensures Valid()
      ensures |bufs| == |old(bufs)| && disk.Keys == old(disk.Keys) && logical.Keys == old(logical.Keys)
      ensures forall i :: i in ring && i < |bufs| ==>
                i < |old(bufs)| && Treated(FlushUnit(unit), reliableWrites, old(bufs)[i], bufs[i])
      ensures reliableWrites ==> ok
      ensures ok ==> logical == old(logical)
      ensures forall b :: b in logical && b.unit == unit ==> b in disk && disk[b] == logical[b]
      ensures ok && MirrorsFollow(geometry, old(State())) ==>
                MirrorsFollow(geometry, State()) && CopiesAgree(geometry, disk, unit)
    {
      hide Passed, Treated, Written, Coherent, MirrorsFollow, InPrimary, IsMirror, Linked, CopiesAgree, OutsideFat;
      Members();
      ok := true;
      var bp := first;
      ghost var k, was := 0, bufs;
      PassBegins(FlushUnit(unit), reliableWrites, was, ring);
      while true
        invariant Valid() && 0 <= k < |ring| && bp == ring[k]
        invariant |bufs| == |old(bufs)| && disk.Keys == old(disk.Keys) && logical.Keys == old(logical.Keys)
        invariant reliableWrites ==> ok
        invariant Passed(FlushUnit(unit), reliableWrites, was, bufs, ring, k)
        invariant ok ==> logical == old(logical)
        invariant ok && MirrorsFollow(geometry, old(State())) ==> MirrorsFollow(geometry, State())
        invariant forall i :: 0 <= i < k && bufs[ring[i]].key.unit == unit ==>
                  !(bufs[ring[i]].valid && bufs[ring[i]].dirty)
        decreases |ring| - k
      {
        StepAt(k);
        ghost var mid := bufs;
        var done := FlushOne(bp, unit);
        ok := ok && done;
        PassGoesOn(FlushUnit(unit), reliableWrites, was, mid, bufs, ring, k);
        bp := next[bp];
        if bp == first {
          break;
        }
        k := k + 1;
      }
      PassEnds(FlushUnit(unit), reliableWrites, was, bufs, ring);
      CleanDrive(geometry, secsize, State(), unit);
    }

    /** `flush`: writes every dirty buffer back and empties the cache. */
    method Flush() returns (ok: bool)
      requires Valid()
      modifies this`disk, this`bufs, this`logical
      ensures Valid()
      ensures |bufs| == |old(bufs)| && disk.Keys == old(disk.Keys) && logical.Keys == old(logical.Keys)
      ensures forall i :: i in ring && i < |bufs| ==>
                i < |old(bufs)| && Treated(FlushAll, reliableWrites, old(bufs)[i], bufs[i])
      ensures reliableWrites ==> ok
      ensures ok ==> logical == old(logical)
      ensures forall b :: b in logical ==> b in disk && disk[b] == logical[b]
      ensures forall i :: i in ring ==> i < |bufs| && !bufs[i].valid
      ensures ok && MirrorsFollow(geometry, old(State())) ==> forall u :: CopiesAgree(geometry, disk, u)
    {
      hide Passed, Treated, Written, Coherent, MirrorsFollow, CopiesAgree, InPrimary, IsMirror, Linked, OutsideFat;
      Members();
      ok := true;
      var bp := first;
      ghost var k, was := 0, bufs;
      PassBegins(FlushAll, reliableWrites, was, ring);
      while true
        invariant Valid() && 0 <= k < |ring| && bp == ring[k]
        invariant |bufs| == |old(bufs)| && disk.Keys == old(disk.Keys) && logical.Keys == old(logical.Keys)
        invariant reliableWrites ==> ok
        invariant Passed(FlushAll, reliableWrites, was, bufs, ring, k)
        invariant ok ==> logical == old(logical)
        invariant ok && MirrorsFollow(geometry, old(State())) ==> MirrorsFollow(geometry, State())
        invariant forall i :: 0 <= i < k ==> !bufs[ring[i]].valid
        decreases |ring| - k
      {
        StepAt(k);
        ghost var mid := bufs;
        var done := GiveUp(bp);
        ok := ok && done;
        PassGoesOn(FlushAll, reliableWrites, was, mid, bufs, ring, k);
        bp := next[bp];
        if bp == first {
          break;
        }
        k := k + 1;
      }
      PassEnds(FlushAll, reliableWrites, was, bufs, ring);
      assert forall i :: i in ring ==> !bufs[i].valid;
      forall u ensures ok && MirrorsFollow(geometry, State()) ==> CopiesAgree(geometry, disk, u) {
        CleanDrive(geometry, secsize, State(), u);
      }
      forall b | b in logical ensures b in disk && disk[b] == logical[b] {
        CleanDrive(geometry, secsize, State(), b.unit);
      }
    }

    /** Clears VALID, and whatever other flags `x` lacks, of one buffer. */
    method Drop(bp: nat, x: Buffer)
      requires Valid() && bp in ring && !x.valid && x.data == bufs[bp].data
      modifies this`bufs, this`logical
      ensures Valid() && bufs == old(bufs)[bp := x]
      ensures var o := old(bufs)[bp];
              logical == if o.valid && o.key in old(logical) && o.key in disk then old(logical)[o.key := disk[o.key]]
                         else old(logical)
      ensures !(old(bufs)[bp].valid && old(bufs)[bp].dirty) ==> logical == old(logical)
      ensures var o := old(bufs)[bp];
              MirrorsFollow(geometry, old(State())) && !(o.valid && o.dirty && InPrimary(geometry, o.key)) ==>
                  MirrorsFollow(geometry, State())
    {
      hide Coherent, MirrorsFollow, InPrimary, IsMirror, Written, Linked, CopiesAgree, OutsideFat;
      Members();
      ghost var v := State();
      CoherentBounds(geometry, secsize, v, {}, bp);
      DropCoherent(geometry, secsize, v, bp, x);
      logical := Forgotten(v, bufs[bp]);
      bufs := bufs[bp := x];
      assert State() == Changed(v, bp, x, logical);
    }

    /** The body of the loop of `DeleteBlockInBufferCache`. */
    method DeleteOne(bp: nat, lo: nat, hi: nat, unit: int, write: bool)
      requires Valid() && bp in ring
      modifies this`disk, this`bufs, this`logical
      ensures Valid() && bp < |bufs| == |old(bufs)| && bufs == old(bufs)[bp := bufs[bp]]
      ensures Treated(Dropping(unit, lo, hi, write), reliableWrites, old(bufs)[bp], bufs[bp])
      ensures disk.Keys == old(disk.Keys) && logical.Keys == old(logical.Keys)
      ensures bufs[bp].valid && InRange(bufs[bp].key, unit, lo, hi) ==> !write && !bufs[bp].dirty
      ensures forall b :: b in logical && !InRange(b, unit, lo, hi) ==> logical[b] == old(logical)[b]
      ensures !write && reliableWrites ==> logical == old(logical)
      ensures write ==> disk == old(disk)
      ensures reliableWrites && OutsideFat(geometry, unit, lo, hi) && MirrorsFollow(geometry, old(State()))
              ==> MirrorsFollow(geometry, State())
    {
      hide Written, Coherent, MirrorsFollow, IsMirror, Linked, CopiesAgree;
      Members();
      if bufs[bp].valid && InRange(bufs[bp].key, unit, lo, hi) {
        if write {
          Drop(bp, bufs[bp].(valid := false, dirty := false, fat := false, uncache := false));
        } else {
          var _ := Flush1(bp);
        }
      }
    }

    /** `DeleteBlockInBufferCache`: before a transfer that goes past the cache, dirty buffers of the
        range are written (for a read) or all its buffers are thrown away (for a write). */
    method DeleteBlocks(lo: nat, hi: nat, unit: int, write: bool)
      requires Valid()
      modifies this`disk, this`bufs, this`logical
      ensures Valid()
      ensures |bufs| == |old(bufs)| && disk.Keys == old(disk.Keys) && logical.Keys == old(logical.Keys)
      ensures forall b :: b in logical && InRange(b, unit, lo, hi) ==> b in disk && disk[b] == logical[b]
      ensures forall b :: b in logical && !InRange(b, unit, lo, hi) ==> logical[b] == old(logical)[b]
      ensures !write && reliableWrites ==> logical == old(logical)
      ensures forall i :: i in ring && i < |bufs| ==>
                i < |old(bufs)| && Treated(Dropping(unit, lo, hi, write), reliableWrites, old(bufs)[i], bufs[i])
      ensures write ==> disk == old(disk)
      ensures write ==> forall i, b :: i in ring && InRange(b, unit, lo, hi) ==> i < |bufs| && !Holds(bufs[i], b)
      ensures reliableWrites && OutsideFat(geometry, unit, lo, hi) && MirrorsFollow(geometry, old(State()))
              ==> MirrorsFollow(geometry, State())
    {
      hide Passed, Treated, Coherent, MirrorsFollow, InPrimary, IsMirror, OutsideFat, Written, Linked, CopiesAgree;
      Members();
      var bp := first;
      ghost var k, was := 0, bufs;
      PassBegins(Dropping(unit, lo, hi, write), reliableWrites, was, ring);
      while true
        invariant Valid() && 0 <= k < |ring| && bp == ring[k]
        invariant |bufs| == |old(bufs)| && disk.Keys == old(disk.Keys) && logical.Keys == old(logical.Keys)
        invariant forall b :: b in logical && !InRange(b, unit, lo, hi) ==> logical[b] == old(logical)[b]
        invariant !write && reliableWrites ==> logical == old(logical)
        invariant write ==> disk == old(disk)
        invariant Passed(Dropping(unit, lo, hi, write), reliableWrites, was, bufs, ring, k)
        invariant reliableWrites && OutsideFat(geometry, unit, lo, hi) && MirrorsFollow(geometry, old(State()))
                  ==> MirrorsFollow(geometry, State())
        invariant forall i :: 0 <= i < k && ring[i] < |bufs| && bufs[ring[i]].valid
                           && InRange(bufs[ring[i]].key, unit, lo, hi)
                    ==> !write && !bufs[ring[i]].dirty
        decreases |ring| - k
      {
        StepAt(k);
        ghost var mid := bufs;
        DeleteOne(bp, lo, hi, unit, write);
        PassGoesOn(Dropping(unit, lo, hi, write), reliableWrites, was, mid, bufs, ring, k);
        bp := next[bp];
        if bp == first {
          break;
        }
        k := k + 1;
      }
      PassEnds(Dropping(unit, lo, hi, write), reliableWrites, was, bufs, ring);
      CleanRange(geometry, secsize, State(), unit, lo, hi);
    }

    /** `dskxfer` of several sectors from the disk. */
    method ReadSectors(unit: int, lo: nat, n: nat) returns (ok: bool, data: seq<Sector>)
      requires n > 0
      ensures ok ==>
                |data| == n && forall t :: 0 <= t < n ==> At(unit, lo, t) in disk && data[t] == disk[At(unit, lo, t)]
      ensures reliableReads && (forall b :: InRange(b, unit, lo, lo + n - 1) ==> b in disk) ==> ok
    {
      ok, data := true, [];
      while |data| < n
        invariant |data| <= n
        invariant ok ==> forall t :: 0 <= t < |data| ==> At(unit, lo, t) in disk && data[t] == disk[At(unit, lo, t)]
        invariant reliableReads && (forall b :: InRange(b, unit, lo, lo + n - 1) ==> b in disk) ==> ok
      {
        assert InRange(At(unit, lo, |data|), unit, lo, lo + n - 1);
        var done, s := ReadDisk(At(unit, lo, |data|));
        ok := ok && done;
        data := data + [s];
      }
    }

    /** What a multi-sector write puts on the disk: the data, or after an error anything. */
    method Garble(data: seq<Sector>) returns (ok: bool, written: seq<Sector>)
      requires forall t :: 0 <= t < |data| ==> |data[t]| == secsize
      ensures |written| == |data| && forall t :: 0 <= t < |data| ==> |written[t]| == secsize
      ensures ok ==> written == data
      ensures reliableWrites ==> ok
    {
      ok, written := reliableWrites, data;
      if !ok {
        ok := *;
        if !ok {
          written := *;
          if |written| != |data| || exists t :: 0 <= t < |written| && |written[t]| != secsize {
            written := data;
          }
        }
      }
    }

    /** `dskxfer` of several sectors to the disk; a failed transfer leaves the range unpredictable. */
    method WriteSectors(unit: int, lo: nat, data: seq<Sector>) returns (ok: bool)
      requires Valid() && |data| > 0 && OutsideFat(geometry, unit, lo, lo + |data| - 1)
      requires forall t :: 0 <= t < |data| ==> |data[t]| == secsize
      requires forall i, b :: i in ring && InRange(b, unit, lo, lo + |data| - 1) ==> i < |bufs| && !Holds(bufs[i], b)
      modifies this`disk, this`logical
      ensures Valid() && disk.Keys == old(disk.Keys) && logical.Keys == old(logical.Keys)
      ensures forall b :: b in logical && !InRange(b, unit, lo, lo + |data| - 1) ==> logical[b] == old(logical)[b]
      ensures ok ==> logical == Spliced(old(logical), unit, lo, data)
      ensures reliableWrites ==> ok
      ensures MirrorsFollow(geometry, old(State())) ==> MirrorsFollow(geometry, State())
    {
      hide Coherent, MirrorsFollow, OutsideFat, InPrimary, IsMirror, Written, Linked, CopiesAgree;
      var written;
      ok, written := Garble(data);
      TransferCoherent(geometry, secsize, State(), unit, lo, written);
      disk := Spliced(disk, unit, lo, written);
      logical := Spliced(logical, unit, lo, written);
    }

    /** `setinvld`: forgets every buffer of a drive whose medium changed. */
    method SetInvalid(unit: int)
      requires Valid()
      modifies this`bufs, this`logical
      ensures Valid() && |bufs| == |old(bufs)| && logical.Keys == old(logical.Keys)
      ensures forall i :: i in ring && i < |bufs| ==>
                i < |old(bufs)| && Treated(Forget(unit), reliableWrites, old(bufs)[i], bufs[i])
      ensures forall b :: b in logical ==> b in disk && logical[b] == if b.unit == unit then disk[b]
                                                                      else old(logical)[b]
      ensures forall i :: i in ring ==> i < |bufs| && (bufs[i].key.unit == unit ==> !bufs[i].valid)
    {
      hide Passed, Treated, Coherent, MirrorsFollow, InPrimary, IsMirror, Linked, CopiesAgree;
      Members();
      var bp := first;
      ghost var k, was := 0, bufs;
      PassBegins(Forget(unit), reliableWrites, was, ring);
      while true
        invariant Valid() && 0 <= k < |ring| && bp == ring[k] && |bufs| == |old(bufs)|
        invariant logical.Keys == old(logical.Keys)
        invariant Passed(Forget(unit), reliableWrites, was, bufs, ring, k)
        invariant forall b :: b in logical && b.unit != unit ==> logical[b] == old(logical)[b]
        invariant forall i :: 0 <= i < k && ring[i] < |bufs| && bufs[ring[i]].key.unit == unit ==> !bufs[ring[i]].valid
        decreases |ring| - k
      {
        StepAt(k);
        ghost var mid := bufs;
        ForgetOne(bp, unit);
        PassGoesOn(Forget(unit), reliableWrites, was, mid, bufs, ring, k);
        bp := next[bp];
        if bp == first {
          break;
        }
        k := k + 1;
      }
      PassEnds(Forget(unit), reliableWrites, was, bufs, ring);
      CleanDrive(geometry, secsize, State(), unit);
      CoherentBounds(geometry, secsize, State(), {}, ring[0]);
    }

    /** `dirty_buffers`: whether a drive has unwritten sectors. */
    method DirtyBuffers(unit: int) returns (yes: bool)
      requires Valid()
      ensures yes <==> exists i :: i in ring && i < |bufs| && bufs[i].valid && bufs[i].dirty && bufs[i].key.unit == unit
      ensures !yes ==> forall b :: b in logical && b.unit == unit ==> b in disk && disk[b] == logical[b]
    {
      hide Coherent;
      var bp := first;
      ghost var k := 0;
      while true
        invariant 0 <= k < |ring| && bp == ring[k]
        invariant forall i :: 0 <= i < k && ring[i] < |bufs| && bufs[ring[i]].key.unit == unit
                              ==> !(bufs[ring[i]].valid && bufs[ring[i]].dirty)
        decreases |ring| - k
      {
        StepAt(k);
        if bufs[bp].key.unit == unit && bufs[bp].valid && bufs[bp].dirty {
          return true;
        }
        bp := next[bp];
        if bp == first {
          break;
        }
        k := k + 1;
      }
      CleanDrive(geometry, secsize, State(), unit);
      yes := false;
    }

    /** Takes the clean buffer at position `k` out of the ring. */
    method Unlink(bp: nat, ghost k: nat)
      requires Valid() && k < |ring| && |ring| > 1 && bp == ring[k] && !(bufs[bp].valid && bufs[bp].dirty)
      modifies this`next, this`prev, this`first, this`count, this`ring
      ensures Valid() && ring == Without(old(ring), k) && |next| == |old(next)|
      ensures old(bp < |next|) && next[bp] == old(next)[bp]
      ensures MirrorsFollow(geometry, old(State())) ==> MirrorsFollow(geometry, State())
    {
      hide Coherent, MirrorsFollow;
      ghost var v := State();
      UnlinkKeepsRing(next, prev, ring, k);
      WithoutElements(ring, k);
      StepAt(k);
      assert next[bp] != bp && prev[bp] != bp by {
        var before := Neighbours(next, prev, ring, k);
        assert ring[before] != ring[k] && ring[After(k, |ring|)] != ring[k];
      }
      RemoveCoherent(geometry, secsize, v, Without(ring, k), bp);
      next := next[prev[bp] := next[bp]];
      prev := prev[next[bp] := prev[bp]];
      if bp == first {
        first := next[bp];
      }
      count := count - 1;
      ring := Without(ring, k);
    }

    /** The body of the loop of `AllocateHMASpace` for a buffer that is in the way. */
    method Release(bp: nat, ghost k: nat)
      requires Valid() && k < |ring| && |ring| > 1 && bp == ring[k]
      modifies this`disk, this`bufs, this`logical, this`next, this`prev, this`first, this`count, this`ring
      ensures Valid() && ring == Without(old(ring), k)
      ensures old(bp < |next|) && bp < |next| && next[bp] == old(next)[bp]
      ensures reliableWrites ==> logical == old(logical)
      ensures reliableWrites && MirrorsFollow(geometry, old(State())) ==> MirrorsFollow(geometry, State())
    {
      hide Written, Coherent, MirrorsFollow;
      StepAt(k);
      var _ := Flush1(bp);
      Unlink(bp, k);
    }

    /** `AllocateHMASpace`: gives the buffers that touch an area of high memory up to the user. What stays in the ring
        lies above the area or ends before it. */
    method AllocateHmaSpace(low: nat, high: nat)
      requires Valid() && |base| == |bufs|
      requires inHma ==> exists i :: i in ring && i < |base| && (base[i] > high || base[i] + bufsize <= low)
      modifies this`disk, this`bufs, this`logical, this`next, this`prev, this`first, this`count, this`ring
      ensures Valid() && count == |ring|
      ensures inHma ==>
                forall i :: i in ring <==> i in old(ring) && i < |base| && (base[i] > high || base[i] + bufsize <= low)
      ensures ring == if inHma then Untouched(base, bufsize, low, high, old(ring)) else old(ring)
      ensures reliableWrites ==> logical == old(logical)
      ensures reliableWrites && MirrorsFollow(geometry, old(State())) ==> MirrorsFollow(geometry, State())
    {
      hide *;
      RingParts();
      if !inHma {
        return;
      }
      Members();
      ghost var all := ring;
      Survives(base, bufsize, low, high, all);
      WalkRing(low, high);
      RingParts();
      Stays(base, bufsize, low, high, all);
    }

    /** Its walk over the ring. */
    method WalkRing(low: nat, high: nat)
      requires Valid() && exists i :: i in ring && !Touches(base, bufsize, low, high, i)
      modifies this`disk, this`bufs, this`logical, this`next, this`prev, this`first, this`count, this`ring
      ensures Valid()
      ensures ring == Untouched(base, bufsize, low, high, old(ring))
      ensures reliableWrites ==> logical == old(logical)
      ensures reliableWrites && MirrorsFollow(geometry, old(State())) ==> MirrorsFollow(geometry, State())
    {
      hide *;
      RingParts();
      var bp, n := first, count;
      ghost var order, rest, kept := ring, ring, [];
      WalkStarts(base, bufsize, low, high, order);
      ghost var survivor :| survivor in ring && !Touches(base, bufsize, low, high, survivor);
      while true
        invariant Valid() && n == |rest| > 0 && bp == rest[0]
        invariant ring == kept + rest && survivor in ring && Walked(base, bufsize, low, high, order, kept, rest)
        invariant reliableWrites ==> logical == old(logical)
        invariant reliableWrites && MirrorsFollow(geometry, old(State())) ==> MirrorsFollow(geometry, State())
        decreases n
      {
        RingParts();
        WalkGoesOn(base, bufsize, low, high, order, kept, rest, survivor);
        StepAt(|kept|);
        if Touches(base, bufsize, low, high, bp) {
          Release(bp, |kept|);
        } else {
          kept := kept + [bp];
        }
        bp := next[bp];
        n := n - 1;
        rest := rest[1..];
        if n == 0 {
          break;
        }
      }
      WalkEnds(base, bufsize, low, high, order, kept, rest);
    }

    lemma RingParts()
      requires Valid()
      ensures RingOk() && |ring| > 0 && first == ring[0] && count == |ring|
    {
    }
  }
}
