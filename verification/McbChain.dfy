/** The chain of memory control blocks of kernel/memmgr.c: how a list of memory areas tiles a
    range of paragraphs, and how it is stored in headers in that memory. */
module McbChain {

  const MCB_NORMAL: nat := 0x4D
  const MCB_LAST: nat := 0x5A
  const FREE_PSP: nat := 0

  /** The marks in headers, for proofs in which definitions are hidden. */
  lemma McbMarks()
    ensures MCB_NORMAL == 0x4D && MCB_LAST == 0x5A && FREE_PSP == 0
  {
  }

  /** The header in the first paragraph of an area: `m_type`, `m_psp`, `m_size`. */
  datatype Mcb = Mcb(kind: nat, psp: nat, size: nat)

  /** An area of memory: a header at paragraph `addr` and `size` paragraphs behind it. */
  datatype Area = Area(addr: nat, size: nat, psp: nat) {
    function End(): nat {
      addr + size + 1
    }

    predicate Free() {
      psp == FREE_PSP
    }
  }

  predicate Adjacent(bs: seq<Area>, i: int) {
    0 <= i < |bs| - 1 && bs[i].End() == bs[i + 1].addr
  }

  /** The areas fill the paragraphs from `first` to `end` without gap or overlap. */
  ghost predicate Tiling(bs: seq<Area>, first: nat, end: nat) {
    && |bs| > 0 && bs[0].addr == first && bs[|bs| - 1].End() == end
    && forall i :: 0 <= i < |bs| - 1 ==> Adjacent(bs, i)
  }

  /** Areas lie in order of address. */
  lemma {:induction false} Ordered(bs: seq<Area>, first: nat, end: nat, i: nat, j: nat)
    requires Tiling(bs, first, end) && i < j < |bs|
    ensures bs[i].End() <= bs[j].addr
  {
    assert Adjacent(bs, j - 1);
    if i + 1 < j {
      Ordered(bs, first, end, i, j - 1);
    }
  }

  lemma Bounds(bs: seq<Area>, first: nat, end: nat, i: nat)
    requires Tiling(bs, first, end) && i < |bs|
    ensures first <= bs[i].addr && bs[i].End() <= end
  {
    if i > 0 {
      Ordered(bs, first, end, 0, i);
    }
    if i + 1 < |bs| {
      Ordered(bs, first, end, i, |bs| - 1);
    }
  }

  /** The area at an address is the only one there. */
  lemma SameArea(bs: seq<Area>, first: nat, end: nat, i: nat, j: nat)
    requires Tiling(bs, first, end) && i < |bs| && j < |bs| && bs[i].addr == bs[j].addr
    ensures i == j
  {
    if i < j {
      Ordered(bs, first, end, i, j);
    } else if j < i {
      Ordered(bs, first, end, j, i);
    }
  }

  /** The header of an area; `cuts` are the addresses where a chain ends. */
  function Header(b: Area, cuts: set<nat>): Mcb {
    Mcb(if b.End() in cuts then MCB_LAST else MCB_NORMAL, b.psp, b.size)
  }

  /** The headers in memory are those of the areas. */
  ghost predicate Stored(m: seq<Mcb>, bs: seq<Area>, cuts: set<nat>) {
    forall b :: b in bs ==> b.addr < |m| && m[b.addr] == Header(b, cuts)
  }

  /** Memory determines the areas: walking the headers finds them. */
  lemma {:induction false} StoredUnique(m: seq<Mcb>, bs: seq<Area>, cs: seq<Area>, first: nat, end: nat, cuts: set<nat>)
    requires Tiling(bs, first, end) && Tiling(cs, first, end) && Stored(m, bs, cuts) && Stored(m, cs, cuts)
    ensures bs == cs
    decreases |bs|
  {
    assert bs[0] in bs && cs[0] in cs;
    assert bs[0] == cs[0];
    if |bs| > 1 && |cs| > 1 {
      assert Adjacent(bs, 0) && Adjacent(cs, 0);
      TailTiling(bs, first, end);
      TailTiling(cs, first, end);
      StoredUnique(m, bs[1..], cs[1..], bs[0].End(), end, cuts);
      assert bs == [bs[0]] + bs[1..] && cs == [cs[0]] + cs[1..];
    } else if |bs| > 1 {
      Ordered(bs, first, end, 0, |bs| - 1);
    } else if |cs| > 1 {
      Ordered(cs, first, end, 0, |cs| - 1);
    }
  }

  lemma TailTiling(bs: seq<Area>, first: nat, end: nat)
    requires Tiling(bs, first, end) && |bs| > 1
    ensures Tiling(bs[1..], bs[0].End(), end)
  {
    assert Adjacent(bs, 0);
    forall i | 0 <= i < |bs[1..]| - 1 ensures Adjacent(bs[1..], i) {
      assert Adjacent(bs, i + 1);
    }
  }

  /** `bs` with the areas from `i` to `j` exchanged for `news`. */
  function Replaced(bs: seq<Area>, i: nat, j: nat, news: seq<Area>): (r: seq<Area>)
    requires i <= j <= |bs|
    ensures |r| == |bs| - (j - i) + |news|
    ensures r[..i] == bs[..i] && r[i..i + |news|] == news && r[i + |news|..] == bs[j..]
  {
    bs[..i] + news + bs[j..]
  }

  /** Areas that fill the place of others fill the whole with the rest. */
  lemma TilingReplaced(bs: seq<Area>, first: nat, end: nat, i: nat, j: nat, news: seq<Area>)
    requires Tiling(bs, first, end) && i < j <= |bs| && Tiling(news, bs[i].addr, bs[j - 1].End())
    ensures Tiling(Replaced(bs, i, j, news), first, end)
  {
    var r := bs[..i] + news + bs[j..];
    forall k | 0 <= k < |r| - 1 ensures Adjacent(r, k) {
      if k + 1 < i {
        assert Adjacent(bs, k);
      } else if k + 1 == i {
        assert Adjacent(bs, k);
        assert r[k + 1] == news[0];
      } else if k + 1 < i + |news| {
        assert Adjacent(news, k - i);
      } else if k + 1 == i + |news| {
        assert Adjacent(bs, j - 1);
        assert r[k] == news[|news| - 1] && r[k + 1] == bs[j];
      } else {
        var q := k - i - |news| + j;
        assert Adjacent(bs, q);
        assert r[k] == bs[q] && r[k + 1] == bs[q + 1];
      }
    }
    if i == 0 {
      assert r[0] == news[0];
    }
    if j == |bs| {
      assert r[|r| - 1] == news[|news| - 1];
    } else {
      assert r[|r| - 1] == bs[|bs| - 1];
    }
  }

  /** Memory was changed between the addresses `lo` and `hi` only. */
  ghost predicate ChangedIn(m: seq<Mcb>, m': seq<Mcb>, lo: nat, hi: nat) {
    |m'| == |m| && forall a :: 0 <= a < |m| && !(lo <= a < hi) ==> m'[a] == m[a]
  }

  lemma StoredReplaced(m: seq<Mcb>, m': seq<Mcb>, bs: seq<Area>, first: nat, end: nat, cuts: set<nat>, i: nat, j: nat,
                       news: seq<Area>)
    requires Tiling(bs, first, end) && Stored(m, bs, cuts) && i < j <= |bs|
    requires ChangedIn(m, m', bs[i].addr, bs[j - 1].End()) && Stored(m', news, cuts)
    ensures Stored(m', Replaced(bs, i, j, news), cuts)
  {
    var r := Replaced(bs, i, j, news);
    forall b | b in r ensures b.addr < |m'| && m'[b.addr] == Header(b, cuts) {
      var k :| 0 <= k < |r| && r[k] == b;
      if k < i {
        assert b == bs[..i][k] && b in bs;
        Ordered(bs, first, end, k, i);
      } else if k < i + |news| {
        assert b == news[k - i];
      } else {
        var q := k - i - |news| + j;
        assert b == bs[j..][q - j] && b in bs;
        Ordered(bs, first, end, j - 1, q);
      }
    }
  }

  lemma InReplaced(bs: seq<Area>, i: nat, j: nat, news: seq<Area>, b: Area)
    requires i <= j <= |bs|
    ensures b in Replaced(bs, i, j, news) <==> b in bs[..i] || b in news || b in bs[j..]
    ensures b in bs <==> b in bs[..i] || b in bs[i..j] || b in bs[j..]
  {
    assert bs == bs[..i] + bs[i..j] + bs[j..];
  }

  /** The same areas are in use. */
  ghost predicate SameOwners(bs: seq<Area>, cs: seq<Area>) {
    forall b: Area :: !b.Free() ==> (b in bs <==> b in cs)
  }

  /** Area `k` of `bs` has taken in the free areas after it: `cs` is the result. */
  ghost predicate Joined(bs: seq<Area>, cs: seq<Area>, k: nat) {
    && k < |cs| <= |bs|
    && var d := |bs| - |cs|;
    && cs[..k] == bs[..k] && cs[k + 1..] == bs[k + 1 + d..]
    && cs[k].addr == bs[k].addr && cs[k].psp == bs[k].psp && cs[k].size >= bs[k].size
    && forall b :: b in bs[k + 1..k + 1 + d] ==> b.Free()
  }

  lemma JoinedSame(bs: seq<Area>, k: nat)
    requires k < |bs|
    ensures Joined(bs, bs, k)
  {
  }

  /** Two areas that follow each other as one. */
  function Merged(a: Area, b: Area): Area {
    Area(a.addr, a.size + b.size + 1, a.psp)
  }

  /** One turn of the loop of `joinMCBs`. */
  lemma JoinStep(m: seq<Mcb>, bs: seq<Area>, cs: seq<Area>, first: nat, end: nat, cuts: set<nat>, k: nat)
    requires Tiling(cs, first, end) && Stored(m, cs, cuts) && Joined(bs, cs, k) && end <= |m|
    requires k + 1 < |cs| && cs[k + 1].Free() && cs[k].End() !in cuts
    ensures var p, q := cs[k].addr, cs[k + 1].addr;
            var ds := Replaced(cs, k, k + 2, [Merged(cs[k], cs[k + 1])]);
            && q == cs[k].End() && p < q < |m|
            && Tiling(ds, first, end) && Joined(bs, ds, k)
            && Stored(m[p := Mcb(m[q].kind, m[p].psp, m[p].size + m[q].size + 1)][q := m[q].(size := 0xFFFF)], ds, cuts)
  {
    hide *;
    var p, q, a := cs[k].addr, cs[k + 1].addr, Merged(cs[k], cs[k + 1]);
    TwoAreas(m, cs, first, end, cuts, k);
    var m' := m[p := Mcb(m[q].kind, m[p].psp, m[p].size + m[q].size + 1)][q := m[q].(size := 0xFFFF)];
    MergedHeader(m, m', cs[k], cs[k + 1], cuts);
    TilingReplaced(cs, first, end, k, k + 2, [a]);
    StoredReplaced(m, m', cs, first, end, cuts, k, k + 2, [a]);
    JoinedMore(bs, cs, k);
  }

  /** Two areas that follow each other, and their headers. */
  lemma TwoAreas(m: seq<Mcb>, cs: seq<Area>, first: nat, end: nat, cuts: set<nat>, k: nat)
    requires Tiling(cs, first, end) && Stored(m, cs, cuts) && k + 1 < |cs| && end <= |m|
    ensures cs[k + 1].addr == cs[k].End() == cs[k].addr + cs[k].size + 1 && cs[k + 1].End() <= |m|
    ensures cs[k + 1].addr < |m|
    ensures cs[k + 1].End() == cs[k + 1].addr + cs[k + 1].size + 1
    ensures m[cs[k].addr] == Header(cs[k], cuts) && m[cs[k + 1].addr] == Header(cs[k + 1], cuts)
    ensures Tiling([Merged(cs[k], cs[k + 1])], cs[k].addr, cs[k + 1].End())
  {
    assert Adjacent(cs, k);
    Bounds(cs, first, end, k + 1);
    assert cs[k] in cs && cs[k + 1] in cs;
  }

  lemma MergedHeader(m: seq<Mcb>, m': seq<Mcb>, a: Area, b: Area, cuts: set<nat>)
    requires b.addr == a.addr + a.size + 1 && b.End() <= |m| && m[a.addr] == Header(a, cuts)
    requires m[b.addr] == Header(b, cuts)
    requires m' == m[a.addr := Mcb(m[b.addr].kind, m[a.addr].psp, m[a.addr].size + m[b.addr].size + 1)]
                    [b.addr := m[b.addr].(size := 0xFFFF)]
    ensures Stored(m', [Merged(a, b)], cuts) && ChangedIn(m, m', a.addr, b.End())
  {
  }

  lemma JoinedMore(bs: seq<Area>, cs: seq<Area>, k: nat)
    requires Joined(bs, cs, k) && k + 1 < |cs| && cs[k + 1].Free()
    ensures Joined(bs, Replaced(cs, k, k + 2, [Merged(cs[k], cs[k + 1])]), k)
  {
    var ds, d := Replaced(cs, k, k + 2, [Merged(cs[k], cs[k + 1])]), |bs| - |cs|;
    assert ds[k] == ds[k..k + 1][0];
    assert cs[k + 1] == cs[k + 1..][0] == bs[k + 1 + d..][0];
    assert bs[k + 1..k + 2 + d] == bs[k + 1..k + 1 + d] + [bs[k + 1 + d]];
    assert ds[k + 1..] == cs[k + 2..] == cs[k + 1..][1..] == bs[k + 1 + d..][1..] == bs[k + 2 + d..];
  }

  /** Joining takes nothing from any area in use but the one that grows. */
  lemma JoinedOwners(bs: seq<Area>, cs: seq<Area>, k: nat)
    requires Joined(bs, cs, k)
    ensures forall b: Area :: !b.Free() && b != bs[k] && b != cs[k] ==> (b in bs <==> b in cs)
    ensures bs[k].Free() ==> SameOwners(bs, cs)
  {
    var d := |bs| - |cs|;
    assert cs == cs[..k] + [cs[k]] + cs[k + 1..];
    assert bs == bs[..k] + [bs[k]] + bs[k + 1..k + 1 + d] + bs[k + 1 + d..];
  }

  /** No two free areas next to each other among those from `s` to `k`. */
  ghost predicate NoPairs(bs: seq<Area>, s: nat, k: nat) {
    forall i :: s <= i < k && i + 1 < |bs| && bs[i].Free() ==> !Next(bs, i).Free()
  }

  /** A search joins a free area with those after it and goes on. */
  lemma NoPairsJoined(bs: seq<Area>, cs: seq<Area>, s: nat, k: nat)
    requires NoPairs(bs, s, k) && Joined(bs, cs, k) && s <= k
    ensures NoPairs(cs, s, k) && cs[..s] == bs[..s] && cs[..k] == bs[..k]
    ensures k < |cs| <= |bs| && cs[k].addr == bs[k].addr && cs[k].psp == bs[k].psp
  {
    assert cs[..s] == cs[..k][..s] && bs[..s] == bs[..k][..s];
    forall i | s <= i < k && cs[i].Free() ensures !Next(cs, i).Free() {
      assert cs[i] == cs[..k][i] && bs[i] == bs[..k][i];
      assert i + 1 < k ==> cs[i + 1] == cs[..k][i + 1] && bs[i + 1] == bs[..k][i + 1];
      assert !Next(bs, i).Free();
    }
  }

  lemma NoPairsStart(bs: seq<Area>, s: nat)
    ensures NoPairs(bs, s, s) && SameOwners(bs, bs)
  {
  }

  lemma OwnersTransitive(a: seq<Area>, b: seq<Area>, c: seq<Area>)
    requires SameOwners(a, b) && SameOwners(b, c)
    ensures SameOwners(a, c)
  {
  }

  function Next(bs: seq<Area>, i: nat): Area
    requires i + 1 < |bs|
  {
    bs[i + 1]
  }

  /** The view in which free neighbours are one area is unique: two lists of areas with the same owners agree
      as far as neither has free neighbours. */
  lemma {:induction false} RunsUnique(bs: seq<Area>, cs: seq<Area>, first: nat, end: nat, i: nat, j: nat, k: nat,
                                      t: nat)
    requires Tiling(bs, first, end) && Tiling(cs, first, end) && SameOwners(bs, cs)
    requires i < |bs| && j <= t < k <= |cs| && bs[i].addr == cs[j].addr
    requires NoPairs(bs, i, |bs|) && NoPairs(cs, j, k)
    ensures cs[t] in bs
    decreases t - j
  {
    RunsAgree(bs, cs, first, end, i, j);
    if j < t {
      assert Adjacent(cs, j);
      if i + 1 == |bs| {
        Ordered(cs, first, end, j, |cs| - 1);
      } else {
        assert Adjacent(bs, i);
        RunsUnique(bs, cs, first, end, i + 1, j + 1, k, t);
      }
    }
  }

  /** Two runs that begin at one address are the same. */
  lemma RunsAgree(bs: seq<Area>, cs: seq<Area>, first: nat, end: nat, i: nat, j: nat)
    requires Tiling(bs, first, end) && Tiling(cs, first, end) && SameOwners(bs, cs)
    requires i < |bs| && j < |cs| && bs[i].addr == cs[j].addr
    requires NoPairs(bs, i, i + 1) && NoPairs(cs, j, j + 1)
    ensures bs[i] == cs[j]
  {
    assert bs[i] in bs && cs[j] in cs;
    if !bs[i].Free() {
      var t :| 0 <= t < |cs| && cs[t] == bs[i];
      SameArea(cs, first, end, t, j);
    } else if !cs[j].Free() {
      var t :| 0 <= t < |bs| && bs[t] == cs[j];
      SameArea(bs, first, end, t, i);
    } else {
      RunNotShorter(bs, cs, first, end, i, j);
      RunNotShorter(cs, bs, first, end, j, i);
    }
  }

  lemma RunNotShorter(bs: seq<Area>, cs: seq<Area>, first: nat, end: nat, i: nat, j: nat)
    requires Tiling(bs, first, end) && Tiling(cs, first, end) && SameOwners(bs, cs)
    requires i < |bs| && j < |cs| && bs[i].addr == cs[j].addr && bs[i].Free() && NoPairs(bs, i, i + 1)
    ensures bs[i].End() >= cs[j].End()
  {
    if i + 1 == |bs| {
      Bounds(cs, first, end, j);
    } else {
      assert Adjacent(bs, i) && !Next(bs, i).Free();
      assert bs[i + 1] in bs;
      var t :| 0 <= t < |cs| && cs[t] == bs[i + 1];
      if t < j {
        Ordered(cs, first, end, t, j);
      } else if j < t {
        Ordered(cs, first, end, j, t);
      }
    }
  }
}
