/** System file table entries and the handle tables that name them: counting the handles of an entry. */
module HandleCounts {

  const UNUSED: nat := 0xFF

  /** A `struct sft`, the parts that opening and closing look at. */
  datatype Entry = Entry(count: nat, device: bool, openClose: bool, noInherit: bool)

  /** The handle table of each process: the entry each handle names, or UNUSED. */
  type Tables = map<nat, seq<nat>>

  predicate Names(t: Tables, p: nat, h: nat, i: nat) {
    p in t && h < |t[p]| && t[p][h] == i
  }

  /** The handles that name entry `i`. */
  function Named(t: Tables, i: nat): (r: set<(nat, nat)>)
    ensures forall p: nat, h: nat :: (p, h) in r <==> Names(t, p, h, i)
  {
    set p, h | p in t && 0 <= h < |t[p]| && t[p][h] == i :: (p, h)
  }

  /** Every handle names an entry that exists, or none. */
  ghost predicate TablesOk(t: Tables, n: nat) {
    forall p, h :: p in t && 0 <= h < |t[p]| ==> t[p][h] < n || t[p][h] == UNUSED
  }

  /** No entry's count is below the number of handles that name it. */
  ghost predicate Covered(s: seq<Entry>, t: Tables) {
    forall i :: 0 <= i < |s| ==> s[i].count >= |Named(t, i)|
  }

  /** Every entry's count is the number of handles that name it. */
  ghost predicate Exact(s: seq<Entry>, t: Tables) {
    forall i :: 0 <= i < |s| ==> s[i].count == |Named(t, i)|
  }

  function Set(t: Tables, p: nat, h: nat, v: nat): (r: Tables)
    requires p in t && h < |t[p]|
    ensures r.Keys == t.Keys && |r[p]| == |t[p]|
  {
    var handles: seq<nat> := t[p][h := v];
    t[p := handles]
  }

  /** One handle named one entry and now names another: the first has one fewer, the second one more. */
  lemma HandleSet(t: Tables, p: nat, h: nat, v: nat, i: nat)
    requires p in t && h < |t[p]|
    ensures |Named(Set(t, p, h, v), i)| == |Named(t, i)| - (if t[p][h] == i then 1 else 0) + (if v == i then 1 else 0)
  {
    var u := Set(t, p, h, v);
    forall q: nat, k: nat | (q, k) != (p, h) ensures Names(u, q, k, i) <==> Names(t, q, k, i) {
      SetElsewhere(t, p, h, v, q, k, i);
    }
    assert Names(t, p, h, i) <==> t[p][h] == i;
    assert Names(u, p, h, i) <==> v == i;
    hide *;
    SameButOne(Named(t, i), Named(u, i), (p, h));
  }

  lemma SetElsewhere(t: Tables, p: nat, h: nat, v: nat, q: nat, k: nat, i: nat)
    requires p in t && h < |t[p]| && (q, k) != (p, h)
    ensures Names(Set(t, p, h, v), q, k, i) <==> Names(t, q, k, i)
  {
  }

  lemma SameButOne(a: set<(nat, nat)>, b: set<(nat, nat)>, x: (nat, nat))
    requires forall q: nat, k: nat :: (q, k) != x ==> ((q, k) in a <==> (q, k) in b)
    ensures |b| == |a| - (if x in a then 1 else 0) + (if x in b then 1 else 0)
  {
    var rest := a - {x};
    assert rest == b - {x} by {
      forall y | y in a || y in b ensures y in a - {x} <==> y in b - {x} {
        assert y == (y.0, y.1);
      }
    }
    assert x in a ==> a == rest + {x};
    assert x !in a ==> a == rest;
    assert x in b ==> b == rest + {x};
    assert x !in b ==> b == rest;
  }

  lemma SetTwice(t: Tables, p: nat, h: nat, v: nat, w: nat)
    requires p in t && h < |t[p]|
    ensures Set(Set(t, p, h, v), p, h, w) == Set(t, p, h, w)
    ensures t[p][h] == v ==> Set(t, p, h, v) == t
    ensures Set(t, p, h, v)[p][h] == v && forall k :: 0 <= k < |t[p]| && k != h ==> Set(t, p, h, v)[p][k] == t[p][k]
  {
    var once, twice := Set(t, p, h, v), Set(Set(t, p, h, v), p, h, w);
    assert twice[p] == Set(t, p, h, w)[p];
    if t[p][h] == v {
      assert once[p] == t[p];
    }
  }

  lemma SetOk(t: Tables, n: nat, p: nat, h: nat, v: nat)
    requires TablesOk(t, n) && p in t && h < |t[p]| && (v < n || v == UNUSED)
    ensures TablesOk(Set(t, p, h, v), n)
  {
  }

  /** A named entry is in use. */
  lemma NamedInUse(s: seq<Entry>, t: Tables, p: nat, h: nat, i: nat)
    requires Covered(s, t) && Names(t, p, h, i) && i < |s|
    ensures s[i].count > 0
  {
    assert (p, h) in Named(t, i);
    NotEmpty(Named(t, i), (p, h));
  }

  lemma NotEmpty(a: set<(nat, nat)>, x: (nat, nat))
    requires x in a
    ensures |a| > 0
  {
    assert a == {x} + (a - {x});
  }

  /** An entry that is not in use is named by no handle. */
  lemma FreeIsUnnamed(s: seq<Entry>, t: Tables, i: nat)
    requires Covered(s, t) && i < |s| && s[i].count == 0
    ensures Named(t, i) == {} && forall p: nat, h: nat :: !Names(t, p, h, i)
  {
    assert |Named(t, i)| == 0;
    forall p: nat, h: nat ensures !Names(t, p, h, i) {
      assert Names(t, p, h, i) ==> (p, h) in Named(t, i);
    }
  }

  /** An entry's count changed, nothing else. */
  function Counted(s: seq<Entry>, i: nat, n: nat): (r: seq<Entry>)
    requires i < |s|
    ensures |r| == |s|
  {
    s[i := s[i].(count := n)]
  }

  /** Counting up alone leaves every count high enough. */
  lemma CountUp(s: seq<Entry>, t: Tables, i: nat)
    requires Covered(s, t) && i < |s|
    ensures Covered(Counted(s, i, s[i].count + 1), t)
  {
  }

  /** A fresh entry in the place of a free one. */
  lemma Replaced(s: seq<Entry>, t: Tables, i: nat, e: Entry)
    requires Covered(s, t) && i < |s| && s[i].count == 0
    ensures Covered(s[i := e], t)
    ensures Exact(s, t) && e.count == 0 ==> Exact(s[i := e], t)
  {
    FreeIsUnnamed(s, t, i);
  }

  /** A free handle of a process given to entry `i`, whose count goes up by one. */
  lemma HandleGiven(s: seq<Entry>, t: Tables, p: nat, h: nat, i: nat)
    requires Covered(s, t) && TablesOk(t, |s|) && |s| <= UNUSED && p in t && h < |t[p]| && t[p][h] == UNUSED && i < |s|
    ensures Covered(Counted(s, i, s[i].count + 1), Set(t, p, h, i)) && TablesOk(Set(t, p, h, i), |s|)
    ensures Exact(s, t) ==> Exact(Counted(s, i, s[i].count + 1), Set(t, p, h, i))
  {
    SetOk(t, |s|, p, h, i);
    forall k | 0 <= k < |s| ensures |Named(Set(t, p, h, i), k)| == |Named(t, k)| + if k == i then 1 else 0 {
      HandleSet(t, p, h, i, k);
    }
  }

  /** A handle taken away from the entry it names; the count does not go up. */
  lemma HandleTaken(s: seq<Entry>, t: Tables, p: nat, h: nat)
    requires Covered(s, t) && TablesOk(t, |s|) && |s| <= UNUSED && p in t && h < |t[p]| && t[p][h] != UNUSED
    ensures var i, u := t[p][h], Set(t, p, h, UNUSED);
            && i < |s| && s[i].count > 0 && TablesOk(u, |s|) && Covered(s, u)
            && Covered(Counted(s, i, s[i].count - 1), u)
            && (Exact(s, t) ==> Exact(Counted(s, i, s[i].count - 1), u))
  {
    var i, u := t[p][h], Set(t, p, h, UNUSED);
    NamedInUse(s, t, p, h, i);
    SetOk(t, |s|, p, h, UNUSED);
    forall k | 0 <= k < |s| ensures |Named(u, k)| == |Named(t, k)| - if k == i then 1 else 0 {
      HandleSet(t, p, h, UNUSED, k);
    }
  }
}
