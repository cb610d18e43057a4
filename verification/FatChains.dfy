/** Cluster chains in a FAT: when a FAT is safe, and which single writes keep it so. */
module FatChains {
  import opened FatPacking
  import opened FatTable

  /** Entry `c` points to a further cluster. */
  predicate Points(fat: seq<nat>, c: int) {
    2 <= c < |fat| && 2 <= fat[c] < |fat|
  }

  ghost predicate EntriesOk(fat: seq<nat>) {
    && |fat| <= LONG_BAD
    && forall c :: 2 <= c < |fat| ==> fat[c] in {FREE, LONG_BAD, LONG_LAST_CLUSTER} || 2 <= fat[c] < |fat|
  }

  /** No two entries point to the same cluster. */
  ghost predicate NoCrossLinks(fat: seq<nat>) {
    forall c, d :: Points(fat, c) && Points(fat, d) && fat[c] == fat[d] ==> c == d
  }

  /** No entry points to a free cluster. */
  ghost predicate NoDangling(fat: seq<nat>) {
    forall c :: Points(fat, c) ==> fat[fat[c]] != FREE
  }

  /** Following links lowers the rank. */
  ghost predicate Ranked(fat: seq<nat>, rank: seq<nat>) {
    |rank| == |fat| && forall c :: Points(fat, c) ==> rank[fat[c]] < rank[c]
  }

  ghost predicate Acyclic(fat: seq<nat>) {
    exists rank :: Ranked(fat, rank)
  }

  ghost predicate Safe(fat: seq<nat>) {
    EntriesOk(fat) && NoCrossLinks(fat) && NoDangling(fat) && Acyclic(fat)
  }

  /** No entry points to cluster `n`. */
  ghost predicate Unpointed(fat: seq<nat>, n: nat) {
    forall c :: Points(fat, c) ==> fat[c] != n
  }

  /** A FAT with no cluster in use is safe, and all of it is free. */
  lemma EmptySafe(fat: seq<nat>)
    requires |fat| <= LONG_BAD && forall c :: 2 <= c < |fat| ==> fat[c] == FREE
    ensures Safe(fat)
  {
    assert Ranked(fat, seq(|fat|, _ => 0));
  }

  lemma {:induction false} EmptyFree(fat: seq<nat>)
    requires |fat| >= 2 && forall c :: 2 <= c < |fat| ==> fat[c] == FREE
    ensures FreeCount(fat) == |fat| - 2
  {
    if |fat| > 2 {
      EmptyFree(fat[..|fat| - 1]);
    }
  }

  /** Marking a free cluster as the end of a chain. */
  lemma ClaimSafe(fat: seq<nat>, n: nat)
    requires Safe(fat) && 2 <= n < |fat| && fat[n] == FREE
    ensures Safe(fat[n := LONG_LAST_CLUSTER]) && Unpointed(fat[n := LONG_LAST_CLUSTER], n) && Unpointed(fat, n)
  {
    var fat' := fat[n := LONG_LAST_CLUSTER];
    assert forall c :: Points(fat', c) ==> Points(fat, c) && fat'[c] == fat[c];
    var rank :| Ranked(fat, rank);
    assert Ranked(fat', rank);
  }

  /** Hanging a one-cluster chain on the end of another. */
  lemma HangSafe(fat: seq<nat>, last: nat, n: nat)
    requires Safe(fat) && 2 <= n < |fat| && 2 <= last < |fat| && last != n
    requires fat[last] == LONG_LAST_CLUSTER && fat[n] == LONG_LAST_CLUSTER && Unpointed(fat, n)
    ensures Safe(fat[last := n])
  {
    HangLinks(fat, last, n);
    hide EntriesOk, NoCrossLinks, NoDangling, Unpointed, Ranked;
    var rank :| Ranked(fat, rank);
    HangRank(fat, last, n, rank);
  }

  lemma HangLinks(fat: seq<nat>, last: nat, n: nat)
    requires EntriesOk(fat) && NoCrossLinks(fat) && NoDangling(fat) && 2 <= n < |fat| && 2 <= last < |fat| && last != n
    requires fat[last] == LONG_LAST_CLUSTER && fat[n] == LONG_LAST_CLUSTER && Unpointed(fat, n)
    ensures EntriesOk(fat[last := n]) && NoCrossLinks(fat[last := n]) && NoDangling(fat[last := n])
  {
    var fat' := fat[last := n];
    assert forall c :: Points(fat', c) && c != last ==> Points(fat, c) && fat'[c] == fat[c];
  }

  /** All ranks go up by one, but that of the cluster hung on is 0. */
  lemma HangRank(fat: seq<nat>, last: nat, n: nat, rank: seq<nat>)
    requires Ranked(fat, rank) && 2 <= n < |fat| <= LONG_BAD && 2 <= last < |fat| && last != n
    requires fat[n] == LONG_LAST_CLUSTER && Unpointed(fat, n)
    ensures Acyclic(fat[last := n])
  {
    var fat' := fat[last := n];
    var rank' := seq(|fat|, i requires 0 <= i < |fat| => if i == n then 0 else rank[i] + 1);
    forall c | Points(fat', c) ensures rank'[fat'[c]] < rank'[c] {
      if c != last {
        assert Points(fat, c);
      }
    }
    assert Ranked(fat', rank');
  }

  /** Freeing a cluster that nothing points to, or ending a chain at a used cluster, cuts off what follows. */
  lemma CutSafe(fat: seq<nat>, c: nat, v: nat)
    requires Safe(fat) && 2 <= c < |fat| && fat[c] != FREE
    requires v == LONG_LAST_CLUSTER || (v == FREE && Unpointed(fat, c))
    ensures Safe(fat[c := v]) && (2 <= fat[c] < |fat| ==> Unpointed(fat[c := v], fat[c]))
    ensures forall d :: Unpointed(fat, d) ==> Unpointed(fat[c := v], d)
  {
    var fat' := fat[c := v];
    assert forall d :: Points(fat', d) ==> Points(fat, d) && fat'[d] == fat[d];
    var rank :| Ranked(fat, rank);
    assert Ranked(fat', rank);
    if 2 <= fat[c] < |fat| {
      assert Points(fat, c);
    }
  }

  /** `cs` is the list of clusters reached from `cs[0]`, up to an end mark. */
  ghost predicate IsChain(fat: seq<nat>, cs: seq<nat>) {
    && |cs| > 0
    && (forall i :: 0 <= i < |cs| ==> 2 <= cs[i] < |fat|)
    && (forall i :: 0 <= i < |cs| - 1 ==> fat[cs[i]] == cs[i + 1])
    && fat[cs[|cs| - 1]] == LONG_LAST_CLUSTER
  }

  /** `cs` is the chain of a file with start cluster `start`, which for an empty file is FREE. */
  ghost predicate FileChain(fat: seq<nat>, start: nat, cs: seq<nat>) {
    if start == FREE then cs == [] else IsChain(fat, cs) && cs[0] == start && Unpointed(fat, start)
  }

  lemma {:induction false} RankFalls(fat: seq<nat>, rank: seq<nat>, cs: seq<nat>, i: nat, j: nat)
    requires Ranked(fat, rank) && i < j < |cs| && forall k :: 0 <= k < |cs| ==> 2 <= cs[k] < |fat|
    requires forall k :: 0 <= k < |cs| - 1 ==> fat[cs[k]] == cs[k + 1]
    ensures rank[cs[j]] < rank[cs[i]]
  {
    var k := j - 1;
    assert fat[cs[k]] == cs[k + 1] && Points(fat, cs[k]);
    if i + 1 < j {
      RankFalls(fat, rank, cs, i, j - 1);
    }
  }

  /** No walk through a safe FAT comes back to a cluster it has seen: there is no cycle. */
  lemma NoCycle(fat: seq<nat>, cs: seq<nat>)
    requires Safe(fat) && forall k :: 0 <= k < |cs| ==> 2 <= cs[k] < |fat|
    requires forall k :: 0 <= k < |cs| - 1 ==> fat[cs[k]] == cs[k + 1]
    ensures forall i, j :: 0 <= i < j < |cs| ==> cs[i] != cs[j]
  {
    var rank :| Ranked(fat, rank);
    forall i, j | 0 <= i < j < |cs| ensures cs[i] != cs[j] {
      RankFalls(fat, rank, cs, i, j);
    }
  }

  /** Where the kernel goes from a cluster of a chain. */
  lemma NextInChain(fat: seq<nat>, cs: seq<nat>, i: nat)
    requires EntriesOk(fat) && IsChain(fat, cs) && i < |cs|
    ensures Next(fat, cs[i]) == if i + 1 < |cs| then cs[i + 1] else LONG_LAST_CLUSTER
  {
    if i + 2 < |cs| {
      assert fat[cs[i + 1]] == cs[i + 2];
    }
  }

  lemma EndMark(fat: seq<nat>, cs: seq<nat>)
    requires |fat| <= LONG_BAD && IsChain(fat, cs)
    ensures fat[cs[0]] == if |cs| > 1 then cs[1] else LONG_LAST_CLUSTER
  {
    if |cs| > 1 {
      var i := 0;
      assert fat[cs[i]] == cs[i + 1];
    }
  }

  /** The start cluster determines the chain. */
  lemma {:induction false} ChainUnique(fat: seq<nat>, cs: seq<nat>, ds: seq<nat>)
    requires |fat| <= LONG_BAD && IsChain(fat, cs) && IsChain(fat, ds) && cs[0] == ds[0]
    ensures cs == ds
  {
    EndMark(fat, cs);
    EndMark(fat, ds);
    if |cs| > 1 {
      ChainUnique(fat, cs[1..], ds[1..]);
      assert cs == [cs[0]] + cs[1..] && ds == [ds[0]] + ds[1..];
    }
  }

  /** Chains of different files share no cluster. */
  lemma {:induction false} ChainsDisjoint(fat: seq<nat>, cs: seq<nat>, ds: seq<nat>, i: nat, j: nat)
    requires Safe(fat) && IsChain(fat, cs) && IsChain(fat, ds) && cs[0] != ds[0]
    requires Unpointed(fat, cs[0]) && Unpointed(fat, ds[0]) && i < |cs| && j < |ds|
    ensures cs[i] != ds[j]
    decreases i
  {
    if i > 0 {
      assert fat[cs[i - 1]] == cs[i] && Points(fat, cs[i - 1]);
      if j > 0 {
        assert fat[ds[j - 1]] == ds[j] && Points(fat, ds[j - 1]);
        ChainsDisjoint(fat, cs, ds, i - 1, j - 1);
      }
    } else if j > 0 {
      assert fat[ds[j - 1]] == ds[j] && Points(fat, ds[j - 1]);
    }
  }

  /** A chain stays one as long as its own entries stay. */
  lemma ChainKept(fat: seq<nat>, fat': seq<nat>, cs: seq<nat>)
    requires IsChain(fat, cs) && |fat'| == |fat|
    requires forall c :: c in cs ==> fat'[c] == fat[c]
    ensures IsChain(fat', cs)
  {
    forall i | 0 <= i < |cs| - 1 ensures fat'[cs[i]] == cs[i + 1] {
      assert cs[i] in cs;
    }
  }

  /** `fat'` is `fat` with the chain `cs` grown to `cs'`: only free clusters were added, every other
      used cluster kept its entry, and at worst free clusters were lost, as chains of one. */
  ghost predicate Grown(fat: seq<nat>, fat': seq<nat>, cs: seq<nat>, cs': seq<nat>) {
    && |fat'| == |fat|
    && cs <= cs'
    && (forall i :: |cs| <= i < |cs'| ==> 2 <= cs'[i] < |fat| && fat[cs'[i]] == FREE)
    && (forall c :: 2 <= c < |fat| && fat[c] != FREE && c !in cs ==> fat'[c] == fat[c])
    && (forall c :: 2 <= c < |fat| && fat[c] == FREE && c !in cs' ==> fat'[c] == FREE || fat'[c] == LONG_LAST_CLUSTER)
  }

  lemma UsedChain(fat: seq<nat>, cs: seq<nat>)
    requires IsChain(fat, cs)
    ensures forall c :: c in cs ==> 2 <= c < |fat| && fat[c] != FREE
  {
    forall c | c in cs ensures 2 <= c < |fat| && fat[c] != FREE {
      var i :| 0 <= i < |cs| && cs[i] == c;
      if i < |cs| - 1 {
        assert fat[cs[i]] == cs[i + 1];
      }
    }
  }

  lemma PrefixMembers(c0: seq<nat>, c1: seq<nat>)
    requires c0 <= c1
    ensures forall c :: c in c0 ==> c in c1
    ensures forall c :: c in c1 && c !in c0 ==> c in c1[|c0|..]
  {
    assert c1 == c0 + c1[|c0|..];
  }

  lemma GrownTransitive(f0: seq<nat>, f1: seq<nat>, f2: seq<nat>, c0: seq<nat>, c1: seq<nat>, c2: seq<nat>, start: nat)
    requires Grown(f0, f1, c0, c1) && Grown(f1, f2, c1, c2) && FileChain(f1, start, c1)
    ensures Grown(f0, f2, c0, c2)
  {
    if c1 != [] {
      UsedChain(f1, c1);
    }
    PrefixMembers(c0, c1);
    PrefixMembers(c1, c2);
    forall c | 2 <= c < |f0| && f0[c] != FREE && c !in c0 ensures f2[c] == f0[c] {
      assert c !in c1[|c0|..];
    }
    forall i | |c0| <= i < |c2| ensures 2 <= c2[i] < |f0| && f0[c2[i]] == FREE {
      if i < |c1| {
        assert c1[i] == c2[i];
      }
    }
  }

  lemma GrownSame(fat: seq<nat>, cs: seq<nat>)
    ensures Grown(fat, fat, cs, cs)
  {
  }

  /** Marking a free cluster as an end leaves chains alone. */
  lemma ClaimKeeps(fat: seq<nat>, start: nat, cs: seq<nat>, n: nat)
    requires Safe(fat) && FileChain(fat, start, cs) && 2 <= n < |fat| && fat[n] == FREE
    ensures var f1 := fat[n := LONG_LAST_CLUSTER];
            Safe(f1) && FileChain(f1, start, cs) && Grown(fat, f1, cs, cs) && n !in cs && Unpointed(f1, n)
    ensures cs == [] ==>
              FileChain(fat[n := LONG_LAST_CLUSTER], n, [n]) && Grown(fat, fat[n := LONG_LAST_CLUSTER], [], [n])
  {
    ClaimSafe(fat, n);
    if cs != [] {
      UsedChain(fat, cs);
      ChainKept(fat, fat[n := LONG_LAST_CLUSTER], cs);
    }
  }

  /** Hanging a one-cluster chain on the last cluster makes the chain one longer. */
  lemma HangKeeps(fat: seq<nat>, cs: seq<nat>, n: nat)
    requires Safe(fat) && IsChain(fat, cs) && Unpointed(fat, cs[0])
    requires 2 <= n < |fat| && n !in cs && fat[n] == LONG_LAST_CLUSTER && Unpointed(fat, n)
    ensures var last := cs[|cs| - 1];
            && last < |fat| && fat[last] == LONG_LAST_CLUSTER
            && Safe(fat[last := n]) && IsChain(fat[last := n], cs + [n]) && Unpointed(fat[last := n], cs[0])
  {
    var last := cs[|cs| - 1];
    var f2 := fat[last := n];
    HangSafe(fat, last, n);
    NoCycle(fat, cs);
    assert cs[0] in cs;
    assert forall c :: Points(f2, c) ==> c == last || (Points(fat, c) && f2[c] == fat[c]);
    var cs' := cs + [n];
    forall i | 0 <= i < |cs'| - 1 ensures f2[cs'[i]] == cs'[i + 1] {
      if i < |cs| - 1 {
        assert fat[cs[i]] == cs[i + 1];
      }
    }
  }

  /** Both writes together. */
  lemma GrownByOne(fat: seq<nat>, cs: seq<nat>, n: nat)
    requires cs != [] && 2 <= n < |fat| && fat[n] == FREE && cs[|cs| - 1] < |fat|
    ensures Grown(fat, fat[n := LONG_LAST_CLUSTER][cs[|cs| - 1] := n], cs, cs + [n])
  {
  }

  /** `g` is `fat` with the first `k` clusters of `cs` freed. */
  ghost predicate Cleared(fat: seq<nat>, g: seq<nat>, cs: seq<nat>, k: nat)
    requires k <= |cs|
  {
    |g| == |fat| && forall c :: 2 <= c < |fat| ==> g[c] == if c in cs[..k] then FREE else fat[c]
  }

  /** `g` is `fat` with some clusters freed. */
  ghost predicate OnlyFreed(fat: seq<nat>, g: seq<nat>) {
    |g| == |fat| && forall c :: 2 <= c < |fat| ==> g[c] == fat[c] || g[c] == FREE
  }

  lemma FreedTransitive(a: seq<nat>, b: seq<nat>, c: nat)
    ensures OnlyFreed(a, a)
    ensures OnlyFreed(a, b) && 2 <= c < |b| ==> OnlyFreed(a, b[c := FREE])
  {
  }

  /** What freeing a chain has reached: the first `k` clusters are free, nothing points to the next one. */
  ghost predicate WipedTo(fat: seq<nat>, g: seq<nat>, cs: seq<nat>, k: nat) {
    && Safe(fat) && IsChain(fat, cs) && k <= |cs|
    && Cleared(fat, g, cs, k) && Safe(g) && (k < |cs| ==> Unpointed(g, cs[k]))
  }

  /** One turn of `wipe_out_clusters` on a chain. */
  lemma WipeStep(fat: seq<nat>, g: seq<nat>, cs: seq<nat>, k: nat)
    requires WipedTo(fat, g, cs, k) && k < |cs|
    ensures 2 <= cs[k] < |g| && Next(g, cs[k]) == if k + 1 < |cs| then cs[k + 1] else LONG_LAST_CLUSTER
    ensures Next(g, cs[k]) > 1 && Safe(g) && WipedTo(fat, g[cs[k] := FREE], cs, k + 1) && Safe(g[cs[k] := FREE])
  {
    NoCycle(fat, cs);
    forall i | k <= i < |cs| ensures g[cs[i]] == fat[cs[i]] {
      assert cs[i] !in cs[..k];
    }
    if k + 1 < |cs| {
      assert fat[cs[k]] == cs[k + 1];
      if k + 2 < |cs| {
        var j := k + 1;
        assert fat[cs[j]] == cs[j + 1];
      }
    }
    CutSafe(g, cs[k], FREE);
    assert cs[..k + 1] == cs[..k] + [cs[k]];
  }

  /** `g` is `fat` with the chain `cs` cut down to its first `n` clusters and the others free. */
  ghost predicate Trimmed(fat: seq<nat>, g: seq<nat>, cs: seq<nat>, n: nat)
    requires n <= |cs|
  {
    |g| == |fat| && forall c :: 2 <= c < |fat| ==>
      g[c] == if c in cs[n..] then FREE else if n > 0 && c == cs[n - 1] then LONG_LAST_CLUSTER else fat[c]
  }

  /** Every cluster outside `cs` kept its entry. */
  ghost predicate OutsideKept(fat: seq<nat>, g: seq<nat>, cs: seq<nat>) {
    |g| == |fat| && forall c :: 2 <= c < |fat| && c !in cs ==> g[c] == fat[c]
  }

  lemma TailChain(fat: seq<nat>, cs: seq<nat>, n: nat)
    requires IsChain(fat, cs) && n < |cs|
    ensures IsChain(fat, cs[n..])
  {
    forall i | 0 <= i < |cs| - n - 1 ensures fat[cs[n..][i]] == cs[n..][i + 1] {
      assert fat[cs[n + i]] == cs[n + i + 1];
    }
  }

  lemma SliceMembers(cs: seq<nat>, n: nat, c: nat)
    requires n <= |cs|
    ensures c in cs[n..] ==> c in cs
    ensures c in cs[..n] ==> c in cs
    ensures c in cs ==> c in cs[..n] || c in cs[n..]
  {
    assert cs == cs[..n] + cs[n..];
  }

  lemma SplitDistinct(cs: seq<nat>, n: nat)
    requires n <= |cs| && forall i, j :: 0 <= i < j < |cs| ==> cs[i] != cs[j]
    ensures forall c :: c in cs[..n] ==> c !in cs[n..]
  {
    forall c | c in cs[..n] ensures c !in cs[n..] {
      var i :| 0 <= i < n && cs[..n][i] == c;
      forall j | 0 <= j < |cs| - n ensures cs[n..][j] != c {
        assert cs[n + j] != cs[i];
      }
    }
  }

  /** `shrink_file` before it wipes: the first `n` clusters end the file, or its one cluster to go is freed. */
  lemma CutFile(fat: seq<nat>, start: nat, cs: seq<nat>, n: nat)
    requires Safe(fat) && FileChain(fat, start, cs) && cs != [] && n <= |cs|
    ensures var c, v := if n == 0 then cs[0] else cs[n - 1], if n == 0 then FREE else LONG_LAST_CLUSTER;
            var f := if n == 0 then 1 else n;
            && 2 <= c < |fat| && Safe(fat[c := v])
            && FileChain(fat[c := v], if n == 0 then FREE else start, cs[..n])
            && (f < |cs| ==> WipedTo(fat[c := v], fat[c := v], cs[f..], 0))
  {
    var c, v := if n == 0 then cs[0] else cs[n - 1], if n == 0 then FREE else LONG_LAST_CLUSTER;
    var f := if n == 0 then 1 else n;
    NoCycle(fat, cs);
    UsedChain(fat, cs);
    assert c == cs[f - 1] && c in cs;
    if f < |cs| {
      assert fat[cs[f - 1]] == cs[f - 1 + 1];
      TailChain(fat, cs, f);
      SplitDistinct(cs, f);
      assert c in cs[..f];
      ChainKept(fat, fat[c := v], cs[f..]);
    }
    CutSafe(fat, c, v);
    if n > 0 {
      CutChain(fat, cs, n);
    }
  }

  lemma CutChain(fat: seq<nat>, cs: seq<nat>, n: nat)
    requires IsChain(fat, cs) && 0 < n <= |cs| && forall i, j :: 0 <= i < j < |cs| ==> cs[i] != cs[j]
    ensures IsChain(fat[cs[n - 1] := LONG_LAST_CLUSTER], cs[..n])
  {
    forall i | 0 <= i < n - 1 ensures fat[cs[n - 1] := LONG_LAST_CLUSTER][cs[..n][i]] == cs[..n][i + 1] {
      assert fat[cs[i]] == cs[i + 1];
    }
  }

  /** Freeing clusters outside a chain leaves it a chain. */
  lemma ClearKeeps(g: seq<nat>, h: seq<nat>, start: nat, cs: seq<nat>, ds: seq<nat>, k: nat)
    requires FileChain(g, start, cs) && k <= |ds| && Cleared(g, h, ds, k)
    requires forall c :: c in cs ==> c !in ds[..k]
    ensures FileChain(h, start, cs)
  {
    if cs != [] {
      UsedChain(g, cs);
      ChainKept(g, h, cs);
      assert forall c :: Points(h, c) ==> Points(g, c) && h[c] == g[c];
    }
  }

  /** After the wipe of the cut-off part, other clusters are as before; if the wipe was complete, exactly
      the cut-off clusters are free. */
  lemma WipedFile(fat: seq<nat>, g: seq<nat>, h: seq<nat>, cs: seq<nat>, n: nat, f: nat, k: nat)
    requires n < |cs| && f == (if n == 0 then 1 else n) < |cs| && k <= |cs| - f
    requires cs[f - 1] < |fat| && g == fat[cs[f - 1] := if n == 0 then FREE else LONG_LAST_CLUSTER]
    requires Cleared(g, h, cs[f..], k) && forall i, j :: 0 <= i < j < |cs| ==> cs[i] != cs[j]
    ensures OutsideKept(fat, h, cs)
    ensures k == |cs| - f ==> Trimmed(fat, h, cs, n)
  {
    assert cs[f - 1] in cs;
    forall c | 2 <= c < |fat| && c !in cs ensures h[c] == fat[c] {
      SliceMembers(cs[f..], k, c);
      SliceMembers(cs, f, c);
    }
    if k == |cs| - f {
      assert cs[f..][..k] == cs[f..];
      SplitDistinct(cs, f);
      assert cs[f - 1] == cs[..f][f - 1];
      if n == 0 {
        assert cs[0..] == [cs[0]] + cs[1..];
      }
    }
  }

  lemma KeptDisjoint(cs: seq<nat>, n: nat, f: nat, k: nat)
    requires n <= f <= |cs| && k <= |cs| - f && forall i, j :: 0 <= i < j < |cs| ==> cs[i] != cs[j]
    ensures forall c :: c in cs[..n] ==> c !in cs[f..][..k]
  {
    SplitDistinct(cs, n);
    forall c | c in cs[..n] ensures c !in cs[f..][..k] {
      SliceMembers(cs[f..], k, c);
      assert cs[f..] == cs[n..][f - n..];
      SliceMembers(cs[n..], f - n, c);
    }
  }

  /** Nothing was cut off. */
  lemma CutOnly(fat: seq<nat>, cs: seq<nat>, n: nat)
    requires IsChain(fat, cs) && n <= |cs| && (if n == 0 then |cs| == 1 else n == |cs|)
    ensures var g := fat[cs[|cs| - 1] := if n == 0 then FREE else LONG_LAST_CLUSTER];
            Trimmed(fat, g, cs, n) && OutsideKept(fat, g, cs) && (n > 0 ==> g == fat)
  {
    assert cs[|cs| - 1] in cs;
    if n == 0 {
      assert cs[0..] == [cs[0]];
    } else {
      assert cs[n..] == [];
    }
  }

  /** Growing one file lets no entry point to the start of another. */
  lemma GrownUnpointed(f: seq<nat>, g: seq<nat>, start: nat, cs: seq<nat>, start': nat, grown: seq<nat>, x: nat)
    requires Safe(f) && FileChain(f, start, cs) && FileChain(g, start', grown) && Grown(f, g, cs, grown)
    requires Unpointed(f, x) && 2 <= x < |f| && f[x] != FREE && |f| <= LONG_BAD
    ensures Unpointed(g, x)
  {
    PrefixMembers(cs, grown);
    forall c | Points(g, c) ensures g[c] != x {
      if c in grown {
        var i :| 0 <= i < |grown| && grown[i] == c;
        if i + 1 < |grown| {
          assert g[grown[i]] == grown[i + 1];
          if i + 1 < |cs| {
            assert cs[i] == grown[i] && cs[i + 1] == grown[i + 1];
            assert f[cs[i]] == cs[i + 1] && Points(f, cs[i]);
          }
        }
      } else if f[c] != FREE {
        assert Points(f, c);
      }
    }
  }

  /** Entries were only ended or freed. */
  ghost predicate OnlyCut(f: seq<nat>, g: seq<nat>) {
    |g| == |f| && forall c :: 2 <= c < |f| ==> g[c] == f[c] || g[c] == FREE || g[c] == LONG_LAST_CLUSTER
  }

  lemma CutUnpointed(f: seq<nat>, g: seq<nat>, x: nat)
    requires OnlyCut(f, g) && |f| <= LONG_BAD && Unpointed(f, x)
    ensures Unpointed(g, x)
  {
    assert forall c :: Points(g, c) ==> Points(f, c) && g[c] == f[c];
  }

  lemma CutOnce(f: seq<nat>, c: nat, v: nat)
    ensures OnlyCut(f, f)
    ensures 2 <= c < |f| && (v == FREE || v == LONG_LAST_CLUSTER) ==> OnlyCut(f, f[c := v])
  {
  }

  lemma CutThenFreed(f: seq<nat>, g: seq<nat>, h: seq<nat>)
    requires OnlyCut(f, g) && OnlyFreed(g, h)
    ensures OnlyCut(f, h)
  {
  }

  /** A chain that shares no cluster with the changed ones is still a file's chain. */
  lemma OtherChainKept(f: seq<nat>, g: seq<nat>, cs: seq<nat>, x: nat, ds: seq<nat>)
    requires FileChain(f, x, ds) && x != FREE && |g| == |f| && Unpointed(g, x)
    requires forall c :: 2 <= c < |f| && f[c] != FREE && c !in cs ==> g[c] == f[c]
    requires forall c :: c in ds ==> c !in cs
    ensures FileChain(g, x, ds)
  {
    UsedChain(f, ds);
    ChainKept(f, g, ds);
  }

  /** Chains of different files share no cluster, as sets. */
  lemma FilesDisjoint(fat: seq<nat>, x: nat, cs: seq<nat>, y: nat, ds: seq<nat>)
    requires Safe(fat) && FileChain(fat, x, cs) && FileChain(fat, y, ds) && x != y
    ensures forall c :: c in ds ==> c !in cs
  {
    forall i, j | 0 <= i < |cs| && 0 <= j < |ds| ensures cs[i] != ds[j] {
      ChainsDisjoint(fat, cs, ds, i, j);
    }
  }
}
