/** Which free area the modes of `DosMemAlloc` in kernel/memmgr.c choose, and what they make of it. */
module McbPolicy {
  import opened McbChain

  const LARGEST: int := -1

  datatype Policy = FirstFit | BestFit | LastFit | LargestFit

  /** A bit of a mode. */
  predicate HasBit(mode: int, bit: nat)
    requires bit > 0
  {
    mode >= 0 && mode / bit % 2 == 1
  }

  /** The `switch` over the mode; unknown modes act like the last fit. */
  function PolicyOf(mode: int): Policy {
    if mode == LARGEST then LargestFit
    else if mode in {0x00, 0x40, 0x80} then FirstFit
    else if mode in {0x01, 0x41, 0x81} then BestFit
    else LastFit
  }

  /** The modes that take the upper end of the area found. */
  predicate TakesEnd(mode: int) {
    mode in {0x02, 0x42, 0x82}
  }

  predicate Fit(b: Area, size: nat) {
    b.Free() && b.size >= size
  }

  ghost predicate NoneFits(bs: seq<Area>, s: nat, k: nat, size: nat) {
    forall i :: s <= i < k && i < |bs| ==> !Fit(bs[i], size)
  }

  ghost predicate NoneFree(bs: seq<Area>, s: nat, k: nat) {
    forall i :: s <= i < k && i < |bs| ==> !bs[i].Free()
  }

  /** The first of the largest free areas. */
  ghost predicate Biggest(bs: seq<Area>, s: nat, k: nat, g: nat) {
    && s <= g < k <= |bs| && bs[g].Free()
    && forall i :: s <= i < k && bs[i].Free() ==> bs[i].size <= bs[g].size && (i < g ==> bs[i].size < bs[g].size)
  }

  /** Area `f` is the one that the policy asks for among those from `s` to `k`: the lowest that is large
      enough, the lowest of the smallest that are, the highest, or the lowest of the largest. */
  ghost predicate Picked(policy: Policy, bs: seq<Area>, s: nat, k: nat, size: nat, f: nat) {
    && s <= f < k <= |bs| && Fit(bs[f], size)
    && match policy
       case FirstFit => NoneFits(bs, s, f, size)
       case BestFit => forall i :: s <= i < k && Fit(bs[i], size) ==>
           bs[f].size <= bs[i].size && (i < f ==> bs[f].size < bs[i].size)
       case LastFit => NoneFits(bs, f + 1, k, size)
       case LargestFit => Biggest(bs, s, k, f)
  }

  /** What the search knows before area `k`; `f` and `g` are -1 for "none". */
  ghost predicate Seen(policy: Policy, bs: seq<Area>, s: nat, k: nat, size: nat, f: int, g: int) {
    && s <= k <= |bs| && f >= -1 && g >= -1
    && (if g < 0 then NoneFree(bs, s, k) else Biggest(bs, s, k, g))
    && (policy == LargestFit ==> f == -1)
    && (policy != LargestFit ==> if f < 0 then NoneFits(bs, s, k, size) else Picked(policy, bs, s, k, size, f))
  }

  lemma SeenNothing(policy: Policy, bs: seq<Area>, s: nat, size: nat)
    requires s <= |bs|
    ensures Seen(policy, bs, s, s, size, -1, -1)
  {
  }

  /** The search goes on past area `k`. */
  lemma SeenStep(policy: Policy, bs: seq<Area>, s: nat, k: nat, size: nat, f: int, g: int)
    requires Seen(policy, bs, s, k, size, f, g) && k < |bs| && (policy == FirstFit ==> f < 0)
    ensures var b := bs[k];
            var g' := if b.Free() && (g < 0 || bs[g].size < b.size) then k else g;
            var f' := if Fit(b, size) && (policy == FirstFit || policy == LastFit
                                       || (policy == BestFit && (f < 0 || bs[f].size > b.size)))
                      then k else f;
            Seen(policy, bs, s, k + 1, size, f', g')
  {
  }

  lemma FitIs(b: Area, size: nat)
    ensures Fit(b, size) <==> b.psp == 0 && b.size >= size
    ensures b.Free() <==> b.psp == 0
  {
  }

  /** Areas from `k` on may change. */
  lemma SeenKept(policy: Policy, bs: seq<Area>, cs: seq<Area>, s: nat, k: nat, size: nat, f: int, g: int)
    requires Seen(policy, bs, s, k, size, f, g) && k <= |cs| && cs[..k] == bs[..k]
    ensures Seen(policy, cs, s, k, size, f, g)
  {
    assert forall i :: 0 <= i < k ==> cs[i] == cs[..k][i] == bs[i];
  }

  /** The area `b` given to the owner `psp`: all of it, its upper end, or its lower end. */
  function Carved(b: Area, size: nat, mode: int, psp: nat): (r: seq<Area>)
    requires mode == LARGEST || size <= b.size
    ensures r != []
  {
    if mode == LARGEST || size == b.size then [Area(b.addr, b.size, psp)]
    else if TakesEnd(mode) then
      [Area(b.addr, b.size - size - 1, FREE_PSP), Area(b.addr + b.size - size, size, psp)]
    else
      [Area(b.addr, size, psp), Area(b.addr + size + 1, b.size - size - 1, FREE_PSP)]
  }

  /** The part of it that is allocated. */
  function Given(b: Area, size: nat, mode: int, psp: nat): Area
    requires mode == LARGEST || size <= b.size
  {
    if mode == LARGEST || size == b.size then Area(b.addr, b.size, psp)
    else if TakesEnd(mode) then Area(b.addr + b.size - size, size, psp)
    else Area(b.addr, size, psp)
  }

  /** The pieces fill the area, one of them is the one allocated, and the others are free. */
  lemma CarvedFills(b: Area, size: nat, mode: int, psp: nat)
    requires (mode == LARGEST || size <= b.size) && psp != FREE_PSP
    ensures var r := Carved(b, size, mode, psp);
            && Tiling(r, b.addr, b.End())
            && forall c: Area :: c in r && !c.Free() <==> c == Given(b, size, mode, psp)
    ensures var c := Given(b, size, mode, psp);
            b.addr <= c.addr && c.End() <= b.End() && c.psp == psp && (mode != LARGEST ==> c.size == size)
  {
    var r := Carved(b, size, mode, psp);
    if |r| == 2 {
      assert r[0].End() == r[1].addr && Adjacent(r, 0);
    }
    var c := Given(b, size, mode, psp);
    if mode == LARGEST || size == b.size {
      assert r == [c];
    } else if TakesEnd(mode) {
      assert r[1] == c && r[0].Free();
    } else {
      assert r[0] == c && r[1].Free();
    }
  }

  /** The size of the largest free area, 0 if there is none. */
  ghost predicate LargestIs(bs: seq<Area>, s: nat, k: nat, n: nat) {
    && s <= k <= |bs|
    && (NoneFree(bs, s, k) ==> n == 0)
    && (!NoneFree(bs, s, k) ==> exists g: nat :: Biggest(bs, s, k, g) && n == bs[g].size)
  }

  /** What a search that went to the end of the chain has found out. */
  lemma SeenAll(policy: Policy, bs: seq<Area>, s: nat, k: nat, size: nat, f: int, g: int)
    requires Seen(policy, bs, s, k, size, f, g)
    ensures LargestIs(bs, s, k, if g < 0 then 0 else bs[g].size)
    ensures policy != LargestFit ==> if f < 0 then NoneFits(bs, s, k, size) else Picked(policy, bs, s, k, size, f)
    ensures policy == LargestFit && g >= 0 && bs[g].size >= size ==> Picked(policy, bs, s, k, size, g)
    ensures policy == LargestFit && (g < 0 || bs[g].size < size) ==> NoneFits(bs, s, k, size) && f < 0
  {
  }

  lemma PickedParts(policy: Policy, bs: seq<Area>, s: nat, k: nat, size: nat, f: nat)
    requires Picked(policy, bs, s, k, size, f)
    ensures s <= f < k <= |bs| && bs[f].Free() && bs[f].size >= size
  {
  }

  lemma PolicyIs(mode: int)
    ensures PolicyOf(mode) == LargestFit <==> mode == LARGEST
    ensures LARGEST == -1
    ensures HasBit(mode, 0x80) ==> mode >= 0x80 && !HasBit(mode - 0x80, 0x80)
  {
  }

  /** Area `f` is the one for the mode number `mode` among those from `s` to `e`: for 0x00, 0x40 and 0x80 none below it
      is large enough; for 0x01, 0x41 and 0x81 it is the lowest of the smallest that are; for -1 the lowest of the
      largest; for all other numbers none above it is large enough. */
  ghost predicate ByNumber(bs: seq<Area>, s: nat, e: nat, f: nat, size: nat, mode: int) {
    && s <= f <= e < |bs| && bs[f].psp == 0 && bs[f].size >= size
    && (mode in {0x00, 0x40, 0x80} ==> forall i :: s <= i < f && bs[i].psp == 0 ==> bs[i].size < size)
    && (mode in {0x01, 0x41, 0x81} ==>
          forall i :: s <= i <= e && bs[i].psp == 0 && bs[i].size >= size ==>
            bs[f].size <= bs[i].size && (i < f ==> bs[f].size < bs[i].size))
    && (mode == -1 ==>
          forall i :: s <= i <= e && bs[i].psp == 0 ==>
            bs[i].size <= bs[f].size && (i < f ==> bs[i].size < bs[f].size))
    && (mode !in {-1, 0x00, 0x40, 0x80, 0x01, 0x41, 0x81} ==>
          forall i :: f < i <= e && bs[i].psp == 0 ==> bs[i].size < size)
  }

  lemma NumberIs(bs: seq<Area>, s: nat, e: nat, f: nat, size: nat, mode: int)
    requires Picked(PolicyOf(mode), bs, s, e + 1, size, f)
    ensures ByNumber(bs, s, e, f, size, mode)
    ensures PolicyOf(mode) == FirstFit <==> mode in {0x00, 0x40, 0x80}
  {
  }

  lemma FirstFitModes(mode: int)
    ensures PolicyOf(mode) == FirstFit <==> mode in {0x00, 0x40, 0x80}
  {
  }

  /** Either of the two bits of a mode that ask for upper memory. */
  ghost predicate AsksUpper(mode: int) {
    mode >= 0 && mode / 0x40 % 4 != 0
  }

  lemma UpperBits(mode: int)
    ensures HasBit(mode, 0x40) || HasBit(mode, 0x80) <==> AsksUpper(mode)
    ensures HasBit(mode, 0x80) <==> mode >= 0 && mode / 0x80 % 2 == 1
  {
    if mode >= 0 {
      var q := mode / 0x40;
      assert mode / 0x80 == q / 2;
      TwoBits(q);
    }
  }

  lemma TwoBits(q: nat)
    ensures q % 4 != 0 <==> q % 2 == 1 || q / 2 % 2 == 1
  {
  }

  /** Where the area given begins, from the mode number. */
  lemma GivenAt(b: Area, size: nat, mode: int, psp: nat)
    requires mode == LARGEST || size <= b.size
    ensures var c := Given(b, size, mode, psp);
            && (mode in {0x02, 0x42, 0x82} ==> c.addr + size == b.addr + b.size)
            && (mode !in {0x02, 0x42, 0x82} ==> c.addr == b.addr)
            && c.psp == psp && c.size == if mode == -1 then b.size else size
  {
  }

  /** The largest free area bounds all of them. */
  lemma NoneBigger(bs: seq<Area>, s: nat, k: nat, n: nat, size: nat)
    requires LargestIs(bs, s, k, n)
    ensures size > n ==> NoneFits(bs, s, k, size)
    ensures size > 0 && NoneFits(bs, s, k, size) ==> n < size
  {
    if !NoneFree(bs, s, k) {
      var g: nat :| Biggest(bs, s, k, g) && n == bs[g].size;
      assert !Fit(bs[g], size) || !NoneFits(bs, s, k, size);
    }
  }
}
