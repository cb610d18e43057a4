/** `LBA_Transfer` of kernel/dsk.c: a request for many sectors made of BIOS calls that cross neither
    the end of a track nor a 64K boundary of memory, with retries. */
module DiskTransfer {
  import opened Arith
  import BlockIo

  type Sector = BlockIo.Sector

  datatype Geometry = Geometry(heads: nat, secs: nat) {
    predicate Valid() {
      heads > 0 && secs > 0 && secs * heads > 0
    }
  }

  datatype Chs = Chs(cylinder: nat, head: nat, sector: nat)

  datatype Option<T> = None | Some(value: T)

  /** `LBA_to_CHS`. */
  function LbaToChs(g: Geometry, lba: nat): Option<Chs>
    requires g.Valid()
  {
    var hs := g.secs * g.heads;
    var hsrem := lba % hs;
    if lba / hs > 1023 then None else Some(Chs(lba / hs, hsrem / g.secs, hsrem % g.secs + 1))
  }

  /** The sector that the BIOS takes an address for. */
  function Physical(g: Geometry, c: Chs): int {
    (c.cylinder * g.heads + c.head) * g.secs + c.sector - 1
  }

  /** The address of a sector is one that the drive has, and stands for that sector. */
  lemma ChsInverse(g: Geometry, lba: nat)
    requires g.Valid() && LbaToChs(g, lba).Some?
    ensures var c := LbaToChs(g, lba).value;
            Physical(g, c) == lba && c.cylinder <= 1023 && c.head < g.heads && 1 <= c.sector <= g.secs
  {
    SplitAddress(lba, g.secs, g.heads);
  }

  lemma SplitAddress(lba: nat, s: nat, h: nat)
    requires s > 0 && h > 0 && s * h > 0
    ensures var q, r := lba / (s * h), lba % (s * h);
            (q * h + r / s) * s + r % s == lba && r / s < h && r % s < s
  {
    var z := s * h;
    var q, r := lba / z, lba % z;
    assert lba == q * z + r && r == r / s * s + r % s;
    Distribute(q * h, r / s, s);
    assert q * h * s == q * z by { Reassociate(q, h, s); Commute(h, s); }
    if r / s >= h {
      MulMono(h, r / s, s);
      Commute(h, s);
    }
  }

  /** Sectors up to the end of the track lie on it one after the other. */
  lemma SameTrack(g: Geometry, lba: nat, i: nat)
    requires g.Valid() && LbaToChs(g, lba).Some? && LbaToChs(g, lba).value.sector + i <= g.secs
    ensures var c := LbaToChs(g, lba).value;
            LbaToChs(g, lba + i) == Some(Chs(c.cylinder, c.head, c.sector + i))
  {
    TrackSame(lba, g.secs * g.heads, g.secs, g.heads, i);
  }

  lemma TrackSame(lba: nat, z: nat, s: nat, h: nat, i: nat)
    requires s > 0 && h > 0 && z == s * h > 0 && lba % z % s + 1 + i <= s
    ensures (lba + i) / z == lba / z && (lba + i) % z == lba % z + i
    ensures (lba % z + i) / s == lba % z / s && (lba % z + i) % s == lba % z % s + i
  {
    var q, r := lba / z, lba % z;
    var t, u := r / s, r % s;
    InCylinder(r, s, h, z, t);
    IntParts(r, s);
    IntParts(lba, z);
    MulStep(t, s);
    DivModUnique(r + i, s, t, u + i);
    DivModUnique(lba + i, z, q, r + i);
  }

  /** A track that begins in a cylinder ends in it. */
  lemma InCylinder(r: nat, s: nat, h: nat, z: nat, t: nat)
    requires s > 0 && z == s * h && r < z && t == r / s
    ensures (t + 1) * s <= z
  {
    IntParts(r, s);
    Commute(s, h);
    if t >= h {
      MulMono(h, t, s);
    }
    MulMono(t + 1, h, s);
  }

  /** `DMA_max_transfer`: how many sectors fit before the next 64K boundary. */
  function DmaMaxTransfer(addr: nat, count: nat, maxsecsize: nat): (n: nat)
    requires maxsecsize > 0
    ensures n <= count
  {
    var off := addr % 0x1_0000;
    var fit := (if off == 0 then 0xFFFF else 0x1_0000 - off) / maxsecsize;
    if count < fit then count else fit
  }

  lemma DmaFits(addr: nat, count: nat, maxsecsize: nat, bytes: nat)
    requires 0 < bytes <= maxsecsize && maxsecsize >= 512
    ensures addr % 0x1_0000 + DmaMaxTransfer(addr, count, maxsecsize) * bytes <= 0x1_0000
    ensures DmaMaxTransfer(addr, count, maxsecsize) < 256
  {
    var off := addr % 0x1_0000;
    var room := if off == 0 then 0xFFFF else 0x1_0000 - off;
    var fit := room / maxsecsize;
    var n := DmaMaxTransfer(addr, count, maxsecsize);
    assert fit * maxsecsize <= room;
    MulMono(n, fit, bytes);
    Commute(fit, bytes);
    Commute(fit, maxsecsize);
    MulMono(bytes, maxsecsize, fit);
    MulMono(512, maxsecsize, fit);
  }

  /** Fewer sectors fit as well. */
  lemma FewerFit(off: nat, n: nat, m: nat, bytes: nat)
    requires m <= n && off + n * bytes <= 0x1_0000
    ensures off + m * bytes <= 0x1_0000
  {
    MulMono(m, n, bytes);
  }

  datatype Kind = Reading | Writing | Verifying | WritingVerified

  /** One call of the BIOS: what it was asked to do with which sectors, and its answer. */
  datatype Call = Call(kind: Kind, lba: nat, count: nat, answer: int)

  /** The calls of one try at `n` sectors from `lba` on, and whether it succeeded: a write to be verified is verified
      after it, unless the drive does both in one call. */
  ghost predicate Try(calls: seq<Call>, mode: Mode, atOnce: bool, lba: nat, n: nat, ok: bool) {
    && 1 <= |calls| <= 2 && (ok <==> calls[|calls| - 1].answer == 0)
    && (forall i :: 0 <= i < |calls| ==> calls[i].lba == lba && calls[i].count == n)
    && match mode
       case Read => |calls| == 1 && calls[0].kind == Reading
       case Write => |calls| == 1 && calls[0].kind == Writing
       case Verify => |calls| == 1 && calls[0].kind == Verifying
       case WriteVerify =>
         if atOnce then |calls| == 1 && calls[0].kind == WritingVerified
         else
           && calls[0].kind == Writing && (|calls| == 2 <==> calls[0].answer == 0)
           && (|calls| == 2 ==> calls[1].kind == Verifying)
  }

  /** At most five tries, of which only the last succeeded. */
  ghost predicate Served(tries: seq<seq<Call>>, mode: Mode, atOnce: bool, lba: nat, n: nat) {
    1 <= |tries| <= 5 && forall i :: 0 <= i < |tries| ==> Try(tries[i], mode, atOnce, lba, n, i == |tries| - 1)
  }

  /** Five tries that all failed, and the answer to the last call of them. */
  ghost predicate GaveUp(tries: seq<seq<Call>>, mode: Mode, atOnce: bool, lba: nat, n: nat, err: int) {
    && |tries| == 5 && (forall i :: 0 <= i < 5 ==> Try(tries[i], mode, atOnce, lba, n, false))
    && err == tries[4][|tries[4]| - 1].answer != 0
  }

  /** Tries that all failed, the last of them with `err`. */
  ghost predicate AllFailed(tries: seq<seq<Call>>, mode: Mode, atOnce: bool, lba: nat, n: nat, err: int) {
    && (forall i :: 0 <= i < |tries| ==> Try(tries[i], mode, atOnce, lba, n, false))
    && (tries != [] ==> var t := tries[|tries| - 1]; t != [] && t[|t| - 1].answer == err)
  }

  lemma FiveTries(mode: Mode, atOnce: bool, lba: nat, n: nat)
    ensures N_RETRY == 5 && AllFailed([], mode, atOnce, lba, n, 0)
  {
  }

  lemma Again(tries: seq<seq<Call>>, mode: Mode, atOnce: bool, lba: nat, n: nat, was: int, t: seq<Call>,
              err: int)
    requires |tries| < 5 && t != [] && t[|t| - 1].answer == err && Try(t, mode, atOnce, lba, n, err == 0)
    requires AllFailed(tries, mode, atOnce, lba, n, was)
    ensures err != 0 ==> AllFailed(tries + [t], mode, atOnce, lba, n, err)
    ensures err == 0 ==> Served(tries + [t], mode, atOnce, lba, n)
  {
    hide Try;
  }

  /** All calls of some tries, in order. */
  ghost function Calls(tries: seq<seq<Call>>): seq<Call> {
    if tries == [] then [] else Calls(tries[..|tries| - 1]) + tries[|tries| - 1]
  }

  lemma OneTryMore(before: seq<Call>, tries: seq<seq<Call>>, t: seq<Call>)
    ensures before + Calls(tries + [t]) == before + Calls(tries) + t
  {
    assert (tries + [t])[..|tries|] == tries;
  }

  /** All calls of some chunks, in order. */
  ghost function AllCalls(log: seq<Chunk>): seq<Call> {
    if log == [] then [] else AllCalls(log[..|log| - 1]) + Calls(log[|log| - 1].tries)
  }

  ghost predicate Extends<T>(before: seq<T>, more: seq<T>, after: seq<T>) {
    after == before + more
  }

  lemma ExtendsIs<T>(before: seq<T>, more: seq<T>, after: seq<T>)
    ensures Extends(before, more, after) <==> after == before + more
  {
  }

  /** What one chunk more adds to the log and to the trace. */
  lemma OneChunkMore(l0: seq<Chunk>, chunks: seq<Chunk>, l: seq<Chunk>, c: Chunk, t0: seq<Call>, t1: seq<Call>,
                     t: seq<Call>)
    requires Extends(l0, chunks, l) && Extends(t0, AllCalls(chunks), t1) && Extends(t1, Calls(c.tries), t)
    ensures Extends(l0, chunks + [c], l + [c]) && Extends(t0, AllCalls(chunks + [c]), t)
  {
    assert (chunks + [c])[..|chunks|] == chunks;
  }

  /** Part of a request that a successful try has done: where on the disk, how many sectors, to or from which address
      in memory unless it went through the kernel's own buffer, and what the BIOS was asked for it. */
  datatype Chunk = Chunk(lba: nat, count: nat, direct: Option<nat>, chs: Option<Chs>, tries: seq<seq<Call>>)

  /** The chunks follow each other on the disk, from `lba` on, and have `n` sectors. */
  ghost predicate Consecutive(log: seq<Chunk>, lba: nat, n: nat) {
    if log == [] then n == 0
    else
      var last := log[|log| - 1];
      last.count <= n && last.lba == lba + n - last.count && Consecutive(log[..|log| - 1], lba, n - last.count)
  }

  lemma MoreConsecutive(log: seq<Chunk>, lba: nat, n: nat, c: Chunk)
    requires Consecutive(log, lba, n) && c.lba == lba + n
    ensures Consecutive(log + [c], lba, n + c.count)
  {
    assert (log + [c])[..|log|] == log;
  }

  datatype Mode = Read | Write | WriteVerify | Verify

  predicate Writes(mode: Mode) {
    mode == Write || mode == WriteVerify
  }

  /** The disk has the sectors of a request. */
  ghost predicate HasRun(disk: map<nat, Sector>, lba: nat, n: nat) {
    forall i: nat :: lba <= i < lba + n ==> i in disk
  }

  /** The elements of `b` from `pos` on are the `n` sectors that the disk has from `lba` on. */
  ghost predicate Reads(disk: map<nat, Sector>, lba: nat, n: nat, b: seq<Sector>, pos: nat) {
    pos + n <= |b| && forall i :: pos <= i < pos + n ==> On(disk, lba + i - pos, b[i])
  }

  /** Only elements from `lo` up to `hi` changed. */
  ghost predicate Between(b: seq<Sector>, b': seq<Sector>, lo: nat, hi: nat) {
    |b| == |b'| && lo <= hi <= |b| && forall i :: 0 <= i < lo || hi <= i < |b| ==> b'[i] == b[i]
  }

  ghost predicate On(disk: map<nat, Sector>, k: int, s: Sector) {
    k in disk && disk[k] == s
  }

  /** Sectors really moved after `t` of a request: all, unless the BIOS was given the count of a long one in a byte. */
  ghost function Through(small: bool, t: nat): (m: nat)
    ensures m <= t
  {
    if small then t else t % 256
  }

  /** After `t` sectors of a request: what was to be read is in memory, what was to be written is on the disk. */
  ghost predicate Progress(mode: Mode, small: bool, d0: map<nat, Sector>, b0: seq<Sector>, d: map<nat, Sector>,
                           b: seq<Sector>, lba: nat, total: nat, t: nat) {
    var m := Through(small, t);
    && t <= total <= |b0| == |b| && HasRun(d, lba, total)
    && (mode != Read ==> b == b0)
    && (!Writes(mode) ==> d == d0)
    && (mode == Read ==> Reads(d0, lba, m, b, 0) && Between(b0, b, 0, m))
    && (Writes(mode) ==> Put(d0, lba, b0, m, [], d))
  }

  /** The first `done` sectors of memory and of the request agree, and of disk and memory nothing changed but the side
      written to, and that at most up to sector `reach` of the request. */
  ghost predicate Moved(mode: Mode, d0: map<nat, Sector>, b0: seq<Sector>, d: map<nat, Sector>, b: seq<Sector>,
                        lba: nat, done: nat, reach: nat) {
    && d.Keys == d0.Keys && |b| == |b0| && done <= reach <= |b|
    && (mode == Verify ==> d == d0 && b == b0)
    && (mode == Read ==>
          && d == d0 && (forall i :: 0 <= i < done ==> On(d0, lba + i, b[i]))
          && forall i: nat :: reach <= i < |b| ==> b[i] == b0[i])
    && (mode == Write || mode == WriteVerify ==>
          && b == b0 && (forall i :: 0 <= i < done ==> On(d, lba + i, b0[i]))
          && forall k: nat :: k in d && !(lba <= k < lba + reach) ==> d[k] == d0[k])
  }

  lemma Begun(mode: Mode, small: bool, d: map<nat, Sector>, b: seq<Sector>, lba: nat, total: nat)
    requires total <= |b| && HasRun(d, lba, total)
    ensures Progress(mode, small, d, b, d, b, lba, total, 0)
  {
    Started(d, lba);
    assert b[..0] == [] && Through(small, 0) == 0;
  }

  /** One chunk more, or one that failed; a long request is one chunk. */
  lemma GoneOn(mode: Mode, small: bool, d0: map<nat, Sector>, b0: seq<Sector>, d1: map<nat, Sector>, b1: seq<Sector>,
               d2: map<nat, Sector>, b2: seq<Sector>, lba: nat, total: nat, t: nat, n: nat,
               wrote: seq<Sector>, ok: bool)
    requires Progress(mode, small, d0, b0, d1, b1, lba, total, t) && t + n <= total && |b2| == |b1|
    requires (mode != Read ==> b2 == b1) && |wrote| <= n && (if small then ok ==> n < 256 else t == 0)
    requires mode == Read ==> Between(b1, b2, t, t + n % 256)
    requires d2 == if Writes(mode) then Stored(d1, lba + t, wrote) else d1
    requires ok && mode == Read ==> Reads(d1, lba + t, n % 256, b2, t)
    requires ok && Writes(mode) ==> Piece(wrote, b1, t, t + n % 256)
    ensures ok ==> Progress(mode, small, d0, b0, d2, b2, lba, total, t + n)
    ensures Writes(mode) ==> Put(d0, lba, b0, t, wrote, d2)
    ensures (mode != Read ==> b2 == b0) && (!Writes(mode) ==> d2 == d0)
    ensures Moved(mode, d0, b0, d2, b2, lba, t, total)
  {
    hide *;
    ProgressParts(mode, small, d0, b0, d1, b1, lba, total, t);
    var m := n % 256;
    Remainder(small, t, n, ok);
    if Writes(mode) {
      WroteOn(mode, d0, b0, d1, d2, lba, t, m, wrote, total, ok);
    } else if mode == Read {
      ReadOn(d0, b0, b1, b2, lba, t, m, total, ok);
    } else {
      VerifiedSome(d0, b0, lba, t, total);
    }
    if ok {
      ProgressIs(mode, small, d0, b0, d2, b2, lba, total, t + n);
    }
  }

  lemma Remainder(small: bool, t: nat, n: nat, ok: bool)
    requires if small then ok ==> n < 256 else t == 0
    ensures n % 256 <= n && (ok ==> Through(small, t + n) == t + n % 256) && Through(small, t) == t
  {
  }

  lemma ProgressParts(mode: Mode, small: bool, d0: map<nat, Sector>, b0: seq<Sector>, d: map<nat, Sector>,
                      b: seq<Sector>, lba: nat, total: nat, t: nat)
    requires Progress(mode, small, d0, b0, d, b, lba, total, t)
    ensures t <= total <= |b0| == |b| && HasRun(d, lba, total) && HasRun(d, lba, t) && Through(small, t) <= t
    ensures (mode != Read ==> b == b0) && (!Writes(mode) ==> d == d0) && !Writes(Read)
    ensures !Writes(mode) && mode != Read ==> mode == Verify
    ensures var m := Through(small, t);
            && (mode == Read ==> Reads(d0, lba, m, b, 0) && Between(b0, b, 0, m))
            && (Writes(mode) ==> Put(d0, lba, b0, m, [], d))
  {
  }

  lemma WroteOn(mode: Mode, d0: map<nat, Sector>, b0: seq<Sector>, d1: map<nat, Sector>, d: map<nat, Sector>, lba: nat,
                t: nat, m: nat, wrote: seq<Sector>, total: nat, ok: bool)
    requires Writes(mode) && t + |wrote| <= total <= |b0| && t + m <= total && HasRun(d1, lba, total)
    requires Put(d0, lba, b0, t, [], d1) && d == Stored(d1, lba + t, wrote) && (ok ==> Piece(wrote, b0, t, t + m))
    ensures Put(d0, lba, b0, t, wrote, d) && (ok ==> Put(d0, lba, b0, t + m, [], d))
    ensures HasRun(d, lba, total) && Moved(mode, d0, b0, d, b0, lba, t, total)
  {
    hide *;
    PutParts(d0, lba, b0, t, [], d1);
    assert b0[..t] + [] == b0[..t];
    StoredTwice(d0, lba, b0[..t], wrote);
    SameRun(d0, lba, b0[..t], b0[..t] + wrote, total);
    PutIs(d0, lba, b0, t, wrote, d);
    if ok {
      PieceIs(wrote, b0, t, t + m);
      assert b0[..t + m] + [] == b0[..t] + wrote;
      PutIs(d0, lba, b0, t + m, [], d);
    }
    WroteSome(mode, d0, b0, d, lba, t, wrote, total);
  }

  lemma PutParts(d0: map<nat, Sector>, lba: nat, b: seq<Sector>, m: nat, junk: seq<Sector>, d: map<nat, Sector>)
    requires Put(d0, lba, b, m, junk, d)
    ensures m <= |b| && d == Stored(d0, lba, b[..m] + junk)
  {
  }

  lemma PutIs(d0: map<nat, Sector>, lba: nat, b: seq<Sector>, m: nat, junk: seq<Sector>, d: map<nat, Sector>)
    requires m <= |b| && d == Stored(d0, lba, b[..m] + junk)
    ensures Put(d0, lba, b, m, junk, d)
  {
  }

  lemma PieceIs(s: seq<Sector>, b: seq<Sector>, lo: nat, hi: nat)
    ensures Piece(s, b, lo, hi) <==> lo <= hi <= |b| && s == b[lo..hi]
  {
  }

  lemma SameRun(d0: map<nat, Sector>, lba: nat, a: seq<Sector>, b: seq<Sector>, total: nat)
    requires HasRun(Stored(d0, lba, a), lba, total)
    ensures HasRun(Stored(d0, lba, b), lba, total) && forall t: nat :: t <= total ==> HasRun(Stored(d0, lba, b), lba, t)
  {
  }

  lemma ReadOn(d0: map<nat, Sector>, b0: seq<Sector>, b1: seq<Sector>, b2: seq<Sector>, lba: nat, t: nat, m: nat,
               total: nat, ok: bool)
    requires t + m <= total <= |b0| && Reads(d0, lba, t, b1, 0) && Between(b0, b1, 0, t)
    requires Between(b1, b2, t, t + m) && (ok ==> Reads(d0, lba + t, m, b2, t))
    ensures Between(b0, b2, 0, t + m) && (ok ==> Reads(d0, lba, t + m, b2, 0))
    ensures Moved(Read, d0, b0, d0, b2, lba, t, total)
  {
    assert Reads(d0, lba, t, b2, 0);
    ReadSome(d0, b0, b2, lba, t, t + m, total);
    if ok {
      forall i | 0 <= i < t + m ensures On(d0, lba + i - 0, b2[i]) {
        if i >= t {
          assert On(d0, lba + t + i - t, b2[i]);
        } else {
          assert On(d0, lba + i - 0, b2[i]);
        }
      }
    }
  }

  lemma ProgressIs(mode: Mode, small: bool, d0: map<nat, Sector>, b0: seq<Sector>, d: map<nat, Sector>,
                   b: seq<Sector>, lba: nat, total: nat, t: nat)
    requires t <= total <= |b0| == |b| && HasRun(d, lba, total)
    requires (mode != Read ==> b == b0) && (!Writes(mode) ==> d == d0) && Through(small, t) <= t
    requires var m := Through(small, t);
             && (mode == Read ==> Reads(d0, lba, m, b, 0) && Between(b0, b, 0, m))
             && (Writes(mode) ==> Put(d0, lba, b0, m, [], d))
    ensures Progress(mode, small, d0, b0, d, b, lba, total, t)
  {
  }

  lemma WroteSome(mode: Mode, d0: map<nat, Sector>, b0: seq<Sector>, d: map<nat, Sector>, lba: nat, t: nat,
                  wrote: seq<Sector>, reach: nat)
    requires Writes(mode) && t + |wrote| <= reach <= |b0| && HasRun(d, lba, t) && Put(d0, lba, b0, t, wrote, d)
    ensures Moved(mode, d0, b0, d, b0, lba, t, reach)
  {
  }

  lemma ReadSome(d0: map<nat, Sector>, b0: seq<Sector>, b: seq<Sector>, lba: nat, t: nat, m: nat, reach: nat)
    requires t <= m <= reach <= |b0| && Reads(d0, lba, t, b, 0) && Between(b0, b, 0, m)
    ensures Moved(Read, d0, b0, d0, b, lba, t, reach)
  {
    forall i | 0 <= i < t ensures On(d0, lba + i, b[i]) {
      assert On(d0, lba + i - 0, b[i]);
    }
  }

  lemma VerifiedSome(d0: map<nat, Sector>, b0: seq<Sector>, lba: nat, t: nat, reach: nat)
    requires t <= reach <= |b0|
    ensures Moved(Verify, d0, b0, d0, b0, lba, t, reach)
  {
  }

  /** The whole request. */
  lemma AllMoved(mode: Mode, small: bool, d0: map<nat, Sector>, b0: seq<Sector>, d: map<nat, Sector>, b: seq<Sector>,
                 lba: nat, total: nat)
    requires Progress(mode, small, d0, b0, d, b, lba, total, total)
    ensures Moved(mode, d0, b0, d, b, lba, Through(small, total), Through(small, total))
    ensures (mode != Read ==> b == b0) && (!Writes(mode) ==> d == d0)
    ensures Writes(mode) ==> Put(d0, lba, b0, Through(small, total), [], d)
  {
    hide Reads, Between, Put, Moved;
    var m := Through(small, total);
    if Writes(mode) {
      WroteSome(mode, d0, b0, d, lba, m, [], m);
    } else if mode == Read {
      ReadSome(d0, b0, b, lba, m, m, m);
    } else {
      VerifiedSome(d0, b0, lba, m, m);
    }
  }

  lemma Started(disk: map<nat, Sector>, lba: nat)
    ensures Stored(disk, lba, []) == disk && Consecutive([], lba, 0)
  {
  }

  /** The place in memory behind `count` sectors more. */
  method NextAddr(ghost addr0: nat, ghost t: nat, addr: nat, count: nat, bytes: nat) returns (next: nat)
    requires addr == addr0 + t * bytes
    ensures next == addr0 + (t + count) * bytes
  {
    MulMono(0, count, bytes);
    assert (t + count) * bytes == t * bytes + count * bytes;
    next := addr + count * bytes;
  }

  /** A run of sectors of the disk. */
  function Run(disk: map<nat, Sector>, lba: nat, n: nat): (r: seq<Sector>)
    requires HasRun(disk, lba, n)
    ensures |r| == n && forall i :: 0 <= i < n ==> r[i] == disk[lba + i]
  {
    seq(n, i requires 0 <= i < n => disk[lba + i])
  }

  /** The disk with a run of sectors written. */
  function Stored(disk: map<nat, Sector>, lba: nat, data: seq<Sector>): (r: map<nat, Sector>)
    ensures forall i: nat :: i in r <==> i in disk
    ensures forall i: nat :: i in disk ==> r[i] == if lba <= i < lba + |data| then data[i - lba] else disk[i]
  {
    map i: nat | i in disk :: if lba <= i < lba + |data| then data[i - lba] else disk[i]
  }

  /** The first `m` sectors of `b` were written, and `junk` behind them. */
  ghost predicate Put(d0: map<nat, Sector>, lba: nat, b: seq<Sector>, m: nat, junk: seq<Sector>, d: map<nat, Sector>) {
    m <= |b| && d == Stored(d0, lba, b[..m] + junk)
  }

  ghost predicate Piece(s: seq<Sector>, b: seq<Sector>, lo: nat, hi: nat) {
    lo <= hi <= |b| && s == b[lo..hi]
  }

  /** Two runs written one after the other. */
  lemma StoredTwice(disk: map<nat, Sector>, lba: nat, a: seq<Sector>, b: seq<Sector>)
    ensures Stored(Stored(disk, lba, a), lba + |a|, b) == Stored(disk, lba, a + b)
  {
  }

  lemma OverStored(disk: map<nat, Sector>, lba: nat, a: seq<Sector>, b: seq<Sector>)
    requires |a| == |b|
    ensures Stored(Stored(disk, lba, a), lba, b) == Stored(disk, lba, b)
  {
  }

  const LAST_DIRECT: nat := 0xA_0000
  const N_RETRY: nat := 5

  /** A drive behind the BIOS. */
  class Drive {
    const geometry: Geometry
    /** DF_LBA, DF_DMA_TRANSPARENT and DF_WRTVERIFY of `ddt_descflags`. */
    const lbaMode: bool
    const transparent: bool
    const writeVerify: bool
    const bytesSector: nat
    const maxsecsize: nat
    /** What the BIOS answers to each call, and what is left where a call failed. */
    const answers: nat -> int
    const garble: (nat, nat) -> Sector
    var calls: nat
    var disk: map<nat, Sector>
    ghost var log: seq<Chunk>
    /** Every call so far. */
    ghost var trace: seq<Call>

    constructor (geometry: Geometry, lbaMode: bool, transparent: bool, writeVerify: bool, bytesSector: nat,
                 maxsecsize: nat,
                 answers: nat -> int, garble: (nat, nat) -> Sector, disk: map<nat, Sector>)
      requires geometry.Valid() && geometry.secs < 256 && 0 < bytesSector <= maxsecsize && maxsecsize >= 512
      ensures Valid() && Told() && this.disk == disk && log == [] && trace == []
    {
      this.geometry, this.lbaMode, this.transparent, this.writeVerify := geometry, lbaMode, transparent, writeVerify;
      this.bytesSector, this.maxsecsize, this.answers, this.garble := bytesSector, maxsecsize, answers, garble;
      this.disk, calls := disk, 0;
      log, trace := [], [];
    }

    /** The trace has the answers that the BIOS gave. */
    ghost predicate Told()
      reads this`calls, this`trace
    {
      |trace| == calls && forall i: nat :: i < calls ==> trace[i].answer == answers(i)
    }

    predicate Valid()
    {
      geometry.Valid() && geometry.secs < 256 && 0 < bytesSector <= maxsecsize && maxsecsize >= 512
    }

    /** One call that reads. */
    method BiosRead(lba: nat, n: nat) returns (err: int, got: seq<Sector>)
      requires HasRun(disk, lba, n) && Told()
      modifies this`calls, this`trace
      ensures |got| == n && (err == 0 ==> got == Run(disk, lba, n))
      ensures Told() && trace == old(trace) + [Call(Reading, lba, n, err)]
    {
      err := answers(calls);
      var call := calls;
      got := if err == 0 then Run(disk, lba, n) else seq(n, i requires 0 <= i < n => garble(call, i));
      calls, trace := calls + 1, trace + [Call(Reading, lba, n, err)];
    }

    /** One call that writes, or writes and verifies; one that fails leaves garbage in its sectors. */
    method BiosWrite(kind: Kind, lba: nat, data: seq<Sector>) returns (err: int, ghost wrote: seq<Sector>)
      requires Told()
      modifies this`calls, this`disk, this`trace
      ensures |wrote| == |data| && disk == Stored(old(disk), lba, wrote) && (err == 0 ==> wrote == data)
      ensures Told() && trace == old(trace) + [Call(kind, lba, |data|, err)]
    {
      err := answers(calls);
      var call := calls;
      var put := if err == 0 then data else seq(|data|, i requires 0 <= i < |data| => garble(call, i));
      wrote := put;
      disk := Stored(disk, lba, put);
      calls, trace := calls + 1, trace + [Call(kind, lba, |data|, err)];
    }

    /** One call that verifies. */
    method BiosVerify(lba: nat, n: nat) returns (err: int)
      requires Told()
      modifies this`calls, this`trace
      ensures Told() && trace == old(trace) + [Call(Verifying, lba, n, err)]
    {
      err := answers(calls);
      calls, trace := calls + 1, trace + [Call(Verifying, lba, n, err)];
    }

    /** What one turn of the retry loop asks of the BIOS, for `n` sectors from `lba` on. */
    method Once(mode: Mode, lba: nat, n: nat, data: seq<Sector>)
      returns (err: int, got: seq<Sector>, ghost wrote: seq<Sector>, ghost asked: seq<Call>)
      requires HasRun(disk, lba, n) && |data| == n && Told()
      modifies this`calls, this`disk, this`trace
      ensures |got| == n && |wrote| == n
      ensures disk == if Writes(mode) then Stored(old(disk), lba, wrote) else old(disk)
      ensures err == 0 ==> wrote == data && (if mode == Read then got == Run(disk, lba, n) else got == data)
      ensures Told() && trace == old(trace) + asked && Try(asked, mode, lbaMode && writeVerify, lba, n, err == 0)
      ensures |asked| > 0 && err == asked[|asked| - 1].answer
    {
      hide Stored, Told;
      got, wrote := data, data;
      ghost var before := trace;
      match mode {
      case Read =>
        err, got := BiosRead(lba, n);
      case Verify =>
        err := BiosVerify(lba, n);
      case Write =>
        err, wrote := BiosWrite(Writing, lba, data);
      case WriteVerify =>
        if lbaMode && writeVerify {
          err, wrote := BiosWrite(WritingVerified, lba, data);
        } else {
          err, wrote := BiosWrite(Writing, lba, data);
          if err == 0 {
            err := BiosVerify(lba, n);
          }
        }
      }
      asked := trace[|before|..];
    }

    /** How many sectors the next chunk may have by its place in memory; none when the first would cross a boundary. */
    function Allowed(addr: nat, todo: nat): nat
      requires Valid()
    {
      if transparent then todo else DmaMaxTransfer(addr, todo, maxsecsize)
    }

    /** What is true of every chunk of a request. */
    ghost predicate ChunkOk(c: Chunk)
      requires Valid()
    {
      && c.count > 0
      && (c.direct.Some? ==> c.direct.value < LAST_DIRECT)
      && (c.direct.None? ==> c.count == 1)
      && (c.direct.Some? && !transparent ==> c.direct.value % 0x1_0000 + c.count * bytesSector <= 0x1_0000)
      && (!lbaMode ==>
            && c.chs.Some? && c.chs == LbaToChs(geometry, c.lba)
            && c.chs.value.sector + c.count - 1 <= geometry.secs)
    }

    /** A chunk at `addr` of which `todo` sectors were left goes through the kernel's buffer only where it must, and is
        cut only by the end of its track or by a boundary that one sector more could cross. */
    ghost predicate Largest(c: Chunk, addr: nat, todo: nat) {
      var room := if addr % 0x1_0000 == 0 then 0xFFFF else 0x1_0000 - addr % 0x1_0000;
      && c.count <= todo
      && (c.direct == if addr >= 0xA_0000 || (!transparent && room < maxsecsize) then None else Some(addr))
      && (c.count < todo && c.direct.Some? ==>
            || (!lbaMode && c.chs.Some? && c.chs.value.sector + c.count == geometry.secs + 1)
            || (!transparent && (c.count + 1) * maxsecsize > room))
    }

    /** The retry loop for one chunk. In CHS mode the chunk is cut at the end of its track. */
    method Attempt(mode: Mode, lba: nat, want: nat, data: seq<Sector>)
        returns (err: int, count: nat, got: seq<Sector>, ghost wrote: seq<Sector>, ghost tries: seq<seq<Call>>)
      requires Valid() && Told() && want > 0 && |data| == want && HasRun(disk, lba, want)
      modifies this`calls, this`disk, this`trace
      ensures 0 < count <= want && |got| == |wrote| == count % 256
      ensures disk == if Writes(mode) then Stored(old(disk), lba, wrote) else old(disk)
      ensures err == 0 && !lbaMode ==> CutAtTrack(lba, want, count)
      ensures lbaMode ==> count == want
      ensures err == 0 ==>
                && wrote == data[..count % 256]
                && (if mode == Read then got == Run(old(disk), lba, count % 256) else got == wrote)
      ensures Told() && trace == old(trace) + Calls(tries)
      ensures if err == 0 then Served(tries, mode, lbaMode && writeVerify, lba, count % 256)
              else Refused(tries, mode, lba, count % 256, err)
    {
      hide *;
      ValidParts();
      count, err, tries := want, 0, [];
      Untouched(disk, lba, want);
      got := data[..count % 256];
      wrote := Run(disk, lba, count % 256);
      ghost var before, heard := disk, trace;
      NoCalls(heard);
      FiveTries(mode, lbaMode && writeVerify, lba, count % 256);
      var retries := 0;
      while retries < N_RETRY
        invariant 0 <= retries <= N_RETRY && (retries == 0 ==> err == 0 && count == want) && (retries > 0 ==> err != 0)
        invariant 0 < count <= want && |got| == |wrote| == count % 256 && (lbaMode ==> count == want)
        invariant disk == if Writes(mode) then Stored(before, lba, wrote) else before
        invariant (retries == 0 ==> disk == before) && HasRun(disk, lba, want)
        invariant !lbaMode && retries > 0 ==> CutAtTrack(lba, want, count)
        invariant Told() && trace == heard + Calls(tries) && |tries| == retries
        invariant AllFailed(tries, mode, lbaMode && writeVerify, lba, count % 256, err)
        decreases N_RETRY - retries
      {
        ghost var last, d1, was := wrote, disk, err;
        var addressed, cut := Cut(lba, want, count, retries > 0);
        if !addressed {
          NoneMade(tries, mode, lba, count % 256);
          return 1, count, got, wrote, tries;
        }
        Low(cut, want);
        FiveTries(mode, lbaMode && writeVerify, lba, cut % 256);
        RunKept(d1, lba, want, cut % 256);
        ghost var asked;
        err, got, wrote, asked := Once(mode, lba, cut % 256, data[..cut % 256]);
        StoredRun(d1, lba, want, wrote);
        if retries > 0 {
          OverStored(before, lba, last, wrote);
        }
        OneTryMore(heard, tries, asked);
        Again(tries, mode, lbaMode && writeVerify, lba, cut % 256, was, asked, err);
        tries := tries + [asked];
        count := cut;
        if err == 0 {
          break;
        }
        retries := retries + 1;
      }
      if err != 0 {
        Five(tries, mode, lba, count % 256, err);
      }
    }

    /** The count up to the end of the track, unless the block has no address. */
    method Cut(lba: nat, want: nat, count: nat, ghost again: bool) returns (addressed: bool, cut: nat)
      requires Valid() && 0 < count <= want
      requires if again then !lbaMode ==> CutAtTrack(lba, want, count) else count == want
      ensures !addressed ==> !again && !lbaMode && lba / (geometry.secs * geometry.heads) > 1023
      ensures addressed ==> 0 < cut <= count && (again ==> cut == count)
      ensures addressed ==> if lbaMode then cut == count else CutAtTrack(lba, want, cut)
    {
      addressed, cut := true, count;
      if !lbaMode {
        var chs := LbaToChs(geometry, lba);
        NotAddressed(lba);
        if chs == None {
          return false, count;
        }
        ChsInverse(geometry, lba);
        if chs.value.sector + count > geometry.secs + 1 {
          cut := geometry.secs + 1 - chs.value.sector;
        }
      }
    }

    lemma NoneMade(tries: seq<seq<Call>>, mode: Mode, lba: nat, n: nat)
      requires Valid() && tries == [] && !lbaMode && lba / (geometry.secs * geometry.heads) > 1023
      ensures Refused(tries, mode, lba, n, 1)
    {
    }

    lemma Five(tries: seq<seq<Call>>, mode: Mode, lba: nat, n: nat, err: int)
      requires Valid() && err != 0 && |tries| == N_RETRY
      requires AllFailed(tries, mode, lbaMode && writeVerify, lba, n, err)
      ensures Refused(tries, mode, lba, n, err)
    {
      hide Try;
    }

    lemma NotAddressed(lba: nat)
      requires geometry.Valid()
      ensures LbaToChs(geometry, lba) == None <==> lba / (geometry.secs * geometry.heads) > 1023
    {
    }

    ghost predicate CutAtTrack(lba: nat, want: nat, count: nat)
      requires Valid()
    {
      var c := LbaToChs(geometry, lba);
      c.Some? && count == if c.value.sector + want > geometry.secs + 1 then geometry.secs + 1 - c.value.sector else want
    }

    /** Why a chunk failed: its block has no address, and no call was made, or each of five tries failed. */
    ghost predicate Refused(tries: seq<seq<Call>>, mode: Mode, lba: nat, n: nat, err: int)
      requires Valid()
    {
      || (err == 1 && tries == [] && !lbaMode && lba / (geometry.secs * geometry.heads) > 1023)
      || GaveUp(tries, mode, lbaMode && writeVerify, lba, n, err)
    }

    /** The BIOS gets the count in a byte: no chunk of this request can be longer. */
    predicate InBytes(addr: nat, total: nat)
    {
      !(transparent && lbaMode && addr < 0xA_0000) || total < 256
    }

    /** One chunk of a request, of which `todo` sectors are left from `pos` on. */
    method Step(mode: Mode, buf: array<Sector>, pos: nat, addr: nat, lba: nat, todo: nat)
        returns (err: int, count: nat, ghost chunk: Chunk, ghost wrote: seq<Sector>, ghost tries: seq<seq<Call>>)
      requires Valid() && Told() && todo > 0 && pos + todo <= buf.Length && HasRun(disk, lba, todo)
      modifies this`calls, this`disk, this`trace, buf
      ensures 0 < count <= todo
      ensures err == 0 ==>
                chunk.lba == lba && chunk.count == count && ChunkOk(chunk) && Largest(chunk, addr, todo)
                && chunk.tries == tries && Served(tries, mode, lbaMode && writeVerify, lba, count % 256)
      ensures err != 0 ==> Refused(tries, mode, lba, count % 256, err)
      ensures Told() && Extends(old(trace), Calls(tries), trace)
      ensures mode != Read ==> buf[..] == old(buf[..])
      ensures mode == Read ==>
                disk == old(disk) && Between(old(buf[..]), buf[..], pos, pos + count % 256)
      ensures |wrote| <= count && disk == if Writes(mode) then Stored(old(disk), lba, wrote) else old(disk)
      ensures err == 0 && InBytes(addr, todo) ==> count < 256
      ensures err == 0 && mode == Read ==> Reads(old(disk), lba, count % 256, buf[..], pos)
      ensures err == 0 && Writes(mode) ==> Piece(wrote, old(buf[..]), pos, pos + count % 256)
    {
      hide *;
      var want := Wanted(addr, todo);
      ValidParts();
      var bounce := addr >= LAST_DIRECT || want == 0;
      if bounce {
        want := 1;
      }
      Fewer(lba, todo, want);
      var got;
      ghost var d0, b0, heard := disk, buf[..], trace;
      err, count, got, wrote, tries := Attempt(mode, lba, want, buf[pos..pos + want]);
      ExtendsIs(heard, Calls(tries), trace);
      Low(count, want);
      assert buf[pos..pos + want][..count % 256] == b0[pos..pos + count % 256];
      PieceIs(wrote, b0, pos, pos + count % 256);
      ReadAll(d0, lba, want, count % 256);
      Same(b0, pos, pos + count % 256);
      if mode == Read && (!bounce || err == 0) {
        Receive(buf, pos, got, d0, lba);
      }
      chunk := Chunk(lba, count, if bounce then None else Some(addr),
                     if lbaMode then None else LbaToChs(geometry, lba), tries);
      if err == 0 {
        CutAt(lba, want, count);
        ChunkFits(chunk, want, addr, todo, bounce);
        ChunkIs(chunk);
        ChunkLargest(chunk, want, addr, todo, bounce);
      }
    }

    /** Sectors that were read arrive in memory. */
    method Receive(buf: array<Sector>, pos: nat, got: seq<Sector>, ghost d: map<nat, Sector>, ghost lba: nat)
      requires pos + |got| <= buf.Length && HasRun(d, lba, |got|)
      modifies buf
      ensures Between(old(buf[..]), buf[..], pos, pos + |got|)
      ensures got == Run(d, lba, |got|) ==> Reads(d, lba, |got|, buf[..], pos)
    {
      forall i | 0 <= i < |got| {
        buf[pos + i] := got[i];
      }
    }

    /** `Allowed`, and what is known of it. */
    method Wanted(addr: nat, todo: nat) returns (want: nat)
      requires Valid() && todo > 0
      ensures want == Allowed(addr, todo) <= todo
    {
      want := Allowed(addr, todo);
    }

    lemma CutAt(lba: nat, want: nat, count: nat)
      requires Valid() && (if lbaMode then count == want else CutAtTrack(lba, want, count))
      ensures !lbaMode ==>
                var c := LbaToChs(geometry, lba);
                && c.Some? && c.value.sector >= 1 && count < 256 && c.value.sector + count <= geometry.secs + 1
                && (count != want ==> c.value.sector + count == geometry.secs + 1)
    {
      if !lbaMode {
        ChsInverse(geometry, lba);
      }
    }

    lemma ChunkLargest(c: Chunk, want: nat, addr: nat, todo: nat, bounce: bool)
      requires Valid() && 0 < c.count <= want <= todo && c.direct == if bounce then None else Some(addr)
      requires bounce <==> addr >= 0xA_0000 || Allowed(addr, todo) == 0
      requires if bounce then want == 1 else want == Allowed(addr, todo)
      requires c.count == want || (!lbaMode && c.chs.Some? && c.chs.value.sector + c.count == geometry.secs + 1)
      requires todo > 0 && (!lbaMode ==> c.count < 256)
      ensures Largest(c, addr, todo)
      ensures InBytes(addr, todo) ==> c.count < 256
    {
      DmaFits(addr, todo, maxsecsize, bytesSector);
      var room := if addr % 0x1_0000 == 0 then 0xFFFF else 0x1_0000 - addr % 0x1_0000;
      IntParts(room, maxsecsize);
      if room < maxsecsize {
        DivModUnique(room, maxsecsize, 0, room);
      } else {
        MulMono(1, room / maxsecsize, maxsecsize);
      }
      MulStep(room / maxsecsize, maxsecsize);
    }

    lemma ValidParts()
      requires Valid()
      ensures geometry.Valid() && LAST_DIRECT == 0xA_0000 && !Writes(Read)
    {
    }

    lemma Fewer(lba: nat, todo: nat, want: nat)
      requires HasRun(disk, lba, todo) && want <= todo
      ensures HasRun(disk, lba, want)
    {
    }

    lemma ReadAll(d: map<nat, Sector>, lba: nat, want: nat, n: nat)
      requires HasRun(d, lba, want) && n <= want
      ensures HasRun(d, lba, n)
    {
    }

    lemma ChunkIs(c: Chunk)
      requires Valid() && c.count > 0 && (c.direct.Some? ==> c.direct.value < 0xA_0000)
      requires (c.direct.None? ==> c.count == 1)
      requires c.direct.Some? && !transparent ==> c.direct.value % 0x1_0000 + c.count * bytesSector <= 0x1_0000
      requires !lbaMode ==>
                c.chs == LbaToChs(geometry, c.lba) && c.chs.Some? && c.chs.value.sector + c.count <= geometry.secs + 1
      ensures ChunkOk(c)
    {
    }

    lemma Parts(mode: Mode, small: bool, d0: map<nat, Sector>, b0: seq<Sector>, lba: nat, total: nat, t: nat,
                b: seq<Sector>)
      requires Progress(mode, small, d0, b0, disk, b, lba, total, t)
      ensures HasRun(disk, lba + t, total - t) && total <= |b|
    {
    }

    lemma ChunkFits(c: Chunk, want: nat, addr: nat, todo: nat, bounce: bool)
      requires Valid() && c.count <= want && (bounce <==> c.direct.None?)
      requires (!bounce ==> c.direct == Some(addr) && want == Allowed(addr, todo))
      ensures c.direct.Some? && !transparent ==> c.direct.value % 0x1_0000 + c.count * bytesSector <= 0x1_0000
    {
      DmaFits(addr, todo, maxsecsize, bytesSector);
      if c.direct.Some? && !transparent {
        FewerFit(addr % 0x1_0000, want, c.count, bytesSector);
      }
    }

    /** The chunk is the largest possible at its place in a request of `total` sectors from `lba0` on. */
    ghost predicate Placed(c: Chunk, addr0: nat, lba0: nat, total: nat)
    {
      && lba0 <= c.lba <= lba0 + total
      && Largest(c, addr0 + (c.lba - lba0) * bytesSector, total - (c.lba - lba0))
    }

    lemma ChunkPlaced(c: Chunk, addr0: nat, lba0: nat, total: nat, t: nat, addr: nat)
      requires c.lba == lba0 + t && t <= total && addr == addr0 + t * bytesSector && Largest(c, addr, total - t)
      ensures Placed(c, addr0, lba0, total)
    {
    }

    /** What is known of one chunk that was done. */
    ghost predicate ChunkDone(c: Chunk, mode: Mode, addr0: nat, lba0: nat, total: nat)
      requires Valid()
    {
      && ChunkOk(c) && Placed(c, addr0, lba0, total)
      && Served(c.tries, mode, lbaMode && writeVerify, c.lba, c.count % 256)
    }

    lemma OneDone(c: Chunk, mode: Mode, addr0: nat, lba0: nat, total: nat)
      requires Valid() && ChunkOk(c) && Placed(c, addr0, lba0, total)
      requires Served(c.tries, mode, lbaMode && writeVerify, c.lba, c.count % 256)
      ensures ChunkDone(c, mode, addr0, lba0, total)
    {
    }

    /** A long request that the BIOS gets directly is one chunk. */
    lemma OneChunk(c: Chunk, addr: nat, todo: nat)
      requires Largest(c, addr, todo) && !InBytes(addr, todo)
      ensures c.count == todo
    {
    }

    lemma StillInBytes(addr0: nat, total: nat, t: nat)
      requires t <= total
      ensures InBytes(addr0, total) ==> InBytes(addr0 + t * bytesSector, total - t)
      ensures addr0 + 0 * bytesSector == addr0
    {
    }

    /** What a request moved: all that it reports, unless the BIOS got the count of a long one in a byte, when it is
        that count modulo 256. Where a write failed there is `junk` behind it. */
    ghost predicate DataMoved(mode: Mode, d0: map<nat, Sector>, b0: seq<Sector>, d: map<nat, Sector>, b: seq<Sector>,
                              addr0: nat, lba0: nat, total: nat, transferred: nat, junk: seq<Sector>, ok: bool)
    {
      var whole := !(transparent && lbaMode && addr0 < 0xA_0000) || total < 256;
      var moved := if whole then transferred else transferred % 256;
      && (!whole && !ok ==> transferred == 0)
      && Moved(mode, d0, b0, d, b, lba0, moved, if ok then moved else total)
      && (mode != Read ==> b == b0) && (!Writes(mode) ==> d == d0)
      && (Writes(mode) ==>
            moved + |junk| <= total && Put(d0, lba0, b0, moved, junk, d) && (ok ==> junk == []))
    }

    lemma FailedMoved(mode: Mode, d0: map<nat, Sector>, b0: seq<Sector>, d: map<nat, Sector>, b: seq<Sector>,
                      addr0: nat, lba0: nat, total: nat, t: nat, junk: seq<Sector>)
      requires Moved(mode, d0, b0, d, b, lba0, t, total) && t + |junk| <= total
      requires !InBytes(addr0, total) ==> t == 0
      requires (mode != Read ==> b == b0) && (!Writes(mode) ==> d == d0)
      requires Writes(mode) ==> Put(d0, lba0, b0, t, junk, d)
      ensures DataMoved(mode, d0, b0, d, b, addr0, lba0, total, t, junk, false)
    {
      hide Put, Moved;
    }

    lemma AllDataMoved(mode: Mode, d0: map<nat, Sector>, b0: seq<Sector>, d: map<nat, Sector>, b: seq<Sector>,
                       addr0: nat, lba0: nat, total: nat)
      requires Progress(mode, InBytes(addr0, total), d0, b0, d, b, lba0, total, total)
      ensures DataMoved(mode, d0, b0, d, b, addr0, lba0, total, total, [], true)
    {
      hide Progress, Put, Moved;
      AllMoved(mode, InBytes(addr0, total), d0, b0, d, b, lba0, total);
    }

    /** `LBA_Transfer` for `total` sectors from `lba0` on; they are in memory at `addr0`, which here are the elements of
        `buf`. What is reported as transferred is a prefix of the request that really was, as long as the number of
        sectors of a chunk goes into the byte that the BIOS gets it in; `failed` are the tries at the chunk, of
        `cut` sectors, that ended the request. */
    method LbaTransfer(mode: Mode, buf: array<Sector>, addr0: nat, lba0: nat, total: nat)
        returns (err: int, transferred: nat, ghost chunks: seq<Chunk>, ghost junk: seq<Sector>,
                 ghost failed: seq<seq<Call>>, ghost cut: nat)
      requires Valid() && Told() && total <= buf.Length && HasRun(disk, lba0, total)
      modifies this`calls, this`disk, this`log, this`trace, buf
      ensures transferred <= total && (err == 0 ==> transferred == total)
      ensures log == old(log) + chunks && Consecutive(chunks, lba0, transferred)
      ensures forall c :: c in chunks ==> ChunkDone(c, mode, addr0, lba0, total)
      ensures Told() && trace == old(trace) + AllCalls(chunks) + Calls(failed)
      ensures if err == 0 then failed == [] else Refused(failed, mode, lba0 + transferred, cut, err)
      ensures DataMoved(mode, old(disk), old(buf[..]), disk, buf[..], addr0, lba0, total, transferred, junk, err == 0)
    {
      hide *;
      err, transferred, chunks, junk, failed, cut := 0, 0, [], [], [], 0;
      var todo, lba, addr := total, lba0, addr0;
      ghost var d0, b0, heard, noted := disk, buf[..], trace, log;
      ghost var small := InBytes(addr0, total);
      Begun(mode, small, d0, b0, lba0, total);
      Started(d0, lba0);
      NothingAsked(heard, noted);
      StillInBytes(addr0, total, 0);
      while todo != 0
        invariant 0 <= todo && todo + transferred == total && lba == lba0 + transferred && err == 0 && junk == []
        invariant failed == [] && addr == addr0 + transferred * bytesSector
        invariant Valid() && Extends(noted, chunks, log) && Consecutive(chunks, lba0, transferred)
        invariant forall c :: c in chunks ==> ChunkDone(c, mode, addr0, lba0, total)
        invariant Told() && Extends(heard, AllCalls(chunks), trace)
        invariant Progress(mode, small, d0, b0, disk, buf[..], lba0, total, transferred)
        invariant !small ==> transferred == 0 || transferred == total
        decreases todo
      {
        var count;
        ghost var chunk, wrote;
        ghost var d1, b1, t1 := disk, buf[..], trace;
        Parts(mode, small, d0, b0, lba0, total, transferred, buf[..]);
        StillInBytes(addr0, total, transferred);
        err, count, chunk, wrote, failed := Step(mode, buf, transferred, addr, lba, todo);
        GoneOn(mode, small, d0, b0, d1, b1, disk, buf[..], lba0, total, transferred, count, wrote, err == 0);
        if err != 0 {
          junk, cut := wrote, count % 256;
          AllNoted(noted, chunks, log, heard, t1, failed, trace);
          FailedMoved(mode, d0, b0, disk, buf[..], addr0, lba0, total, transferred, junk);
          return;
        }
        if !small {
          OneChunk(chunk, addr, todo);
        }
        ChunkPlaced(chunk, addr0, lba0, total, transferred, addr);
        OneDone(chunk, mode, addr0, lba0, total);
        MoreConsecutive(chunks, lba0, transferred, chunk);
        OneChunkMore(noted, chunks, log, chunk, heard, t1, trace);
        chunks, failed := chunks + [chunk], [];
        log := log + [chunk];
        addr := NextAddr(addr0, transferred, addr, count, bytesSector);
        transferred := transferred + count;
        lba := lba + count;
        todo := todo - count;
      }
      AllDataMoved(mode, d0, b0, disk, buf[..], addr0, lba0, total);
      NoCalls(trace);
      ExtendsIs(noted, chunks, log);
      ExtendsIs(heard, AllCalls(chunks), trace);
    }
  }

  lemma AllNoted(l0: seq<Chunk>, chunks: seq<Chunk>, l: seq<Chunk>, t0: seq<Call>, t1: seq<Call>,
                 failed: seq<seq<Call>>, t: seq<Call>)
    requires Extends(l0, chunks, l) && Extends(t0, AllCalls(chunks), t1) && Extends(t1, Calls(failed), t)
    ensures l == l0 + chunks && t == t0 + AllCalls(chunks) + Calls(failed)
  {
  }

  lemma NothingAsked(trace: seq<Call>, log: seq<Chunk>)
    ensures Extends(trace, AllCalls([]), trace) && Extends(log, [], log)
  {
  }

  lemma Same(b: seq<Sector>, lo: nat, hi: nat)
    requires lo <= hi <= |b|
    ensures Between(b, b, lo, hi)
  {
  }

  lemma NoCalls(trace: seq<Call>)
    ensures trace + Calls([]) == trace
  {
  }

  lemma Untouched(disk: map<nat, Sector>, lba: nat, want: nat)
    requires HasRun(disk, lba, want)
    ensures want % 256 <= want && HasRun(disk, lba, want % 256) && |Run(disk, lba, want % 256)| == want % 256
    ensures Stored(disk, lba, Run(disk, lba, want % 256)) == disk
  {
    hide *;
    Low(want, want);
    RunKept(disk, lba, want, want % 256);
    RunStored(disk, lba, want % 256);
  }

  lemma RunStored(disk: map<nat, Sector>, lba: nat, n: nat)
    requires HasRun(disk, lba, n)
    ensures Stored(disk, lba, Run(disk, lba, n)) == disk
  {
    hide *;
    var data := Run(disk, lba, n);
    forall i: nat | i in disk ensures i in Stored(disk, lba, data) && Stored(disk, lba, data)[i] == disk[i] {
    }
  }

  lemma RunKept(disk: map<nat, Sector>, lba: nat, want: nat, n: nat)
    requires HasRun(disk, lba, want) && n <= want
    ensures HasRun(disk, lba, n)
  {
  }

  lemma StoredRun(disk: map<nat, Sector>, lba: nat, want: nat, data: seq<Sector>)
    requires HasRun(disk, lba, want)
    ensures HasRun(Stored(disk, lba, data), lba, want)
  {
  }

  lemma Low(cut: nat, count: nat)
    ensures cut % 256 <= cut && (cut < 256 ==> cut % 256 == cut)
  {
  }
}
