/** The circular doubly linked buffer list of kernel/blockio.c, as two link
    tables (`b_next`, `b_prev`) described by one abstract order. */
module LruRing {

  /** Index after `i` on a circle of `n` positions. */
  function After(i: nat, n: nat): nat
    requires i < n
  {
    if i + 1 == n then 0 else i + 1
  }

  ghost predicate NoDuplicates(s: seq<nat>) {
    forall i, j :: 0 <= i < j < |s| ==> s[i] != s[j]
  }

  /** The links between position `i` of the list and the position after it. */
  ghost predicate LinkedAt(next: seq<nat>, prev: seq<nat>, order: seq<nat>, i: nat)
    requires i < |order|
  {
    var j := After(i, |order|);
    order[i] < |next| && order[j] < |prev| && next[order[i]] == order[j] && prev[order[j]] == order[i]
  }

  /** `next` and `prev` are mutually inverse and go once round `order`. */
  ghost predicate Linked(next: seq<nat>, prev: seq<nat>, order: seq<nat>) {
    && |next| == |prev|
    && |order| > 0
    && (forall i :: 0 <= i < |order| ==> order[i] < |next|)
    && NoDuplicates(order)
    && (forall i :: 0 <= i < |order| ==> LinkedAt(next, prev, order, i))
  }

  /** The order without its element at position `k`. */
  function Without(order: seq<nat>, k: nat): (r: seq<nat>)
    requires k < |order|
    ensures |r| == |order| - 1
  {
    order[..k] + order[k + 1..]
  }

  /** The order after its element at position `k` was moved to the front. */
  function Fronted(order: seq<nat>, k: nat): (r: seq<nat>)
    requires k < |order|
    ensures |r| == |order|
  {
    [order[k]] + Without(order, k)
  }

  lemma WithoutElements(order: seq<nat>, k: nat)
    requires k < |order| && NoDuplicates(order)
    ensures NoDuplicates(Without(order, k))
    ensures forall x :: x in Without(order, k) <==> x in order && x != order[k]
  {
    var r := Without(order, k);
    forall x ensures x in r <==> x in order && x != order[k] {
      if x in order && x != order[k] {
        var i :| 0 <= i < |order| && order[i] == x;
        assert r[if i < k then i else i - 1] == x;
      }
    }
  }

  lemma FrontedElements(order: seq<nat>, k: nat)
    requires k < |order| && NoDuplicates(order)
    ensures NoDuplicates(Fronted(order, k))
    ensures forall x :: x in Fronted(order, k) <==> x in order
  {
    WithoutElements(order, k);
    var w := Without(order, k);
    var r := Fronted(order, k);
    assert r[1..] == w;
    forall i, j | 0 <= i < j < |r| ensures r[i] != r[j] {
      assert r[j] == w[j - 1];
      assert r[j] in w;
      if i > 0 { assert r[i] == w[i - 1]; }
    }
    forall x ensures x in r <==> x in order {
      assert x in r <==> x == order[k] || x in w;
    }
  }

  /** Position in `order` of the element at position `i` of `Without(order, k)`. */
  function Shifted(i: nat, k: nat): nat {
    if i < k then i else i + 1
  }

  /** The neighbours of position `k` are the cells that unlinking rewrites. */
  lemma Neighbours(next: seq<nat>, prev: seq<nat>, order: seq<nat>, k: nat) returns (before: nat)
    requires Linked(next, prev, order) && k < |order|
    ensures before < |order| && After(before, |order|) == k
    ensures order[k] < |next| && prev[order[k]] == order[before] && next[order[k]] == order[After(k, |order|)]
  {
    before := if k == 0 then |order| - 1 else k - 1;
    assert LinkedAt(next, prev, order, before) && LinkedAt(next, prev, order, k);
  }

  /** One position of the list that is left when position `k` is taken out. */
  lemma UnlinkAt(next: seq<nat>, prev: seq<nat>, order: seq<nat>, k: nat, before: nat, i: nat)
    requires Linked(next, prev, order) && k < |order| && |order| > 1 && i < |order| - 1
    requires before < |order| && After(before, |order|) == k
    ensures var n := |order|;
            var a, b := order[Shifted(i, k)], order[Shifted(After(i, n - 1), k)];
            && a < |next| && b < |prev| && order[before] < |next| && order[After(k, n)] < |prev|
            && next[order[before] := order[After(k, n)]][a] == b
            && prev[order[After(k, n)] := order[before]][b] == a
  {
    var n := |order|;
    var oi := Shifted(i, k);
    var ro := Shifted(After(i, n - 1), k);
    if oi == before {
      assert ro == After(k, n);
    } else {
      assert ro == After(oi, n) && ro != After(k, n);
      assert LinkedAt(next, prev, order, oi);
      assert order[oi] != order[before] && order[ro] != order[After(k, n)];
    }
  }

  /** Taking out the element at position `k` leaves the others linked in order. */
  lemma UnlinkKeepsRing(next: seq<nat>, prev: seq<nat>, order: seq<nat>, k: nat)
    requires Linked(next, prev, order) && k < |order| && |order| > 1
    ensures var bp := order[k];
            && bp < |next| && next[bp] < |next| && prev[bp] < |next|
            && Linked(next[prev[bp] := next[bp]], prev[next[bp] := prev[bp]], Without(order, k))
  {
    var before := Neighbours(next, prev, order, k);
    var r := Without(order, k);
    assert forall i :: 0 <= i < |r| ==> r[i] == order[Shifted(i, k)];
    assert NoDuplicates(r) by { WithoutElements(order, k); }
    var next' := next[prev[order[k]] := next[order[k]]];
    var prev' := prev[next[order[k]] := prev[order[k]]];
    forall i | 0 <= i < |r| ensures LinkedAt(next', prev', r, i) {
      UnlinkAt(next, prev, order, k, before, i);
    }
  }

  /** Inserting `bp` before the first element makes it the new first element. */
  lemma InsertKeepsRing(next: seq<nat>, prev: seq<nat>, order: seq<nat>, bp: nat)
    requires Linked(next, prev, order) && bp < |next| && bp !in order
    ensures var first := order[0];
            && first < |next| && prev[first] < |next|
            && Linked(next[bp := first][prev[first] := bp],
                      prev[bp := prev[first]][first := bp], [bp] + order)
  {
    var n := |order|;
    var first := order[0];
    var last := order[n - 1];
    assert LinkedAt(next, prev, order, n - 1);
    var next' := next[bp := first][last := bp];
    var prev' := prev[bp := last][first := bp];
    var r := [bp] + order;
    forall i | 0 <= i < |r| ensures LinkedAt(next', prev', r, i) {
      if i > 0 {
        assert r[i] == order[i - 1];
        assert order[i - 1] in order;
        if i < n {
          assert LinkedAt(next, prev, order, i - 1);
          assert order[i] in order;
        }
      }
    }
  }
}
