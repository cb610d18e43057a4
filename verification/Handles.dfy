/** Opening, duplicating, inheriting and closing handles in kernel/dosfns.c and kernel/task.c. */
module Handles {
  import opened ErrorCodes
  import opened HandleCounts

  const PSP_FILES: nat := 20

  /** What an open finds outside these tables: the answer of `truename`, whether the name is a device's and its driver
      wants to be told, the answer of the access checks, and that of the driver or of `dos_open`. */
  datatype Opening = Opening(name: int, device: bool, openClose: bool, noInherit: bool, check: int, outcome: int)

  /** The driver refuses a device that has been counted already. */
  predicate DriverFails(o: Opening) {
    o.name >= 0 && o.device && o.openClose && o.outcome != SUCCESS
  }

  ghost predicate SomeFree(s: seq<Entry>) {
    exists i :: 0 <= i < |s| && s[i].count == 0
  }

  /** All entries before `i` are in use. */
  ghost predicate Lowest(s: seq<Entry>, i: int) {
    forall k :: 0 <= k < i && k < |s| ==> s[k].count > 0
  }

  /** The lowest free entry is in use now though no handle names it: nobody will ever close it. */
  ghost predicate Leaked(s: seq<Entry>, u: seq<Entry>, t: Tables, e: Entry) {
    exists i :: 0 <= i < |s| && s[i].count == 0 && Named(t, i) == {} && u == s[i := e] && Lowest(s, i)
  }

  lemma LeakedInexact(s: seq<Entry>, u: seq<Entry>, t: Tables, e: Entry)
    requires Leaked(s, u, t, e) && e.count > 0
    ensures !Exact(u, t) && SomeFree(s)
  {
    var i :| 0 <= i < |s| && s[i].count == 0 && Named(t, i) == {} && u == s[i := e] && Lowest(s, i);
    assert u[i].count > |Named(t, i)|;
  }

  lemma LeakedThere(s: seq<Entry>, t: Tables, i: nat, e: Entry)
    requires i < |s| && s[i].count == 0 && Named(t, i) == {} && e.count > 0 && forall k :: 0 <= k < i ==> s[k].count > 0
    ensures Leaked(s, s[i := e], t, e) && !Exact(s[i := e], t)
  {
    LeakedInexact(s, s[i := e], t, e);
  }

  lemma FreeFound(s: seq<Entry>, i: int)
    requires if i < 0 then forall k :: 0 <= k < |s| ==> s[k].count > 0 else i < |s| && s[i].count == 0
    ensures SomeFree(s) <==> i >= 0
  {
  }

  lemma OpeningParts(o: Opening)
    ensures DriverFails(o) <==> o.name >= 0 && o.device && o.openClose && o.outcome != SUCCESS
  {
  }

  lemma EntryCounted(s: seq<Entry>, i: nat, e: Entry, n: nat)
    requires i < |s|
    ensures Counted(s[i := e], i, n) == s[i := e.(count := n)]
  {
  }

  /** What handle `h` of a child names, given its parent's handles. */
  function Inherited(mine: seq<nat>, s: seq<Entry>, h: nat): nat {
    if h < |mine| && mine[h] != UNUSED && mine[h] < |s| && !s[mine[h]].noInherit then mine[h] else UNUSED
  }

  ghost predicate SameInherit(s: seq<Entry>, u: seq<Entry>) {
    |s| == |u| && forall i :: 0 <= i < |s| ==> s[i].noInherit == u[i].noInherit
  }

  /** Another table for process `p`, one that names nothing. */
  lemma TableCleared(s: seq<Entry>, t: Tables, p: nat, n: nat)
    requires Covered(s, t) && TablesOk(t, |s|) && |s| <= UNUSED
    ensures var u := t[p := seq(n, _ => UNUSED)];
            Covered(s, u) && TablesOk(u, |s|) && (p !in t && Exact(s, t) ==> Exact(s, u))
  {
    forall i | 0 <= i < |s|
      ensures |Named(t[p := seq(n, _ => UNUSED)], i)| <= |Named(t, i)|
      ensures p !in t ==> |Named(t[p := seq(n, _ => UNUSED)], i)| == |Named(t, i)|
    {
      ClearedNames(t, p, n, i);
    }
  }

  lemma ClearedNames(t: Tables, p: nat, n: nat, i: nat)
    requires i < UNUSED
    ensures |Named(t[p := seq(n, _ => UNUSED)], i)| <= |Named(t, i)|
    ensures p !in t ==> |Named(t[p := seq(n, _ => UNUSED)], i)| == |Named(t, i)|
  {
    var a, b := Named(t, i), Named(t[p := seq(n, _ => UNUSED)], i);
    forall x | x in b ensures x in a {
      assert x == (x.0, x.1) && Names(t[p := seq(n, _ => UNUSED)], x.0, x.1, i);
      assert Names(t, x.0, x.1, i);
    }
    Smaller(b, a);
    if p !in t {
      forall x | x in a ensures x in b {
        assert x == (x.0, x.1) && Names(t, x.0, x.1, i);
        assert Names(t[p := seq(n, _ => UNUSED)], x.0, x.1, i);
      }
      assert a == b;
    }
  }

  lemma Smaller(a: set<(nat, nat)>, b: set<(nat, nat)>)
    requires a <= b
    ensures |a| <= |b|
  {
    assert b == a + (b - a);
  }

  class OpenFiles {
    var sfts: seq<Entry>
    var tables: Tables
    var cuPsp: nat

    constructor (sfts: seq<Entry>, tables: Tables, cuPsp: nat)
      ensures this.sfts == sfts && this.tables == tables && this.cuPsp == cuPsp
    {
      this.sfts, this.tables, this.cuPsp := sfts, tables, cuPsp;
    }

    /** No entry is counted less often than it is named; there are few enough that a byte can name each. */
    ghost predicate Valid()
      reads this
    {
      |sfts| <= UNUSED && cuPsp in tables && TablesOk(tables, |sfts|) && Covered(sfts, tables)
    }

    function Mine(): seq<nat>
      requires cuPsp in tables
      reads this
    {
      tables[cuPsp]
    }

    /** `get_sft_idx`. */
    function GetSftIdx(hndl: nat): int
      requires cuPsp in tables
      reads this
    {
      if hndl >= |Mine()| || Mine()[hndl] == UNUSED then DE_INVLDHNDL else Mine()[hndl]
    }

    /** Whether `idx_to_sft` finds an entry in use. */
    predicate Live(idx: int)
      reads this
    {
      0 <= idx < |sfts| && sfts[idx].count != 0
    }

    /** Every open handle is a handle of an entry in use. */
    lemma OpenIsLive(hndl: nat)
      requires Valid()
      ensures GetSftIdx(hndl) >= 0 <==> Live(GetSftIdx(hndl))
      ensures hndl < |Mine()| ==> (Mine()[hndl] != UNUSED <==> GetSftIdx(hndl) >= 0)
    {
      if GetSftIdx(hndl) >= 0 {
        NamedInUse(sfts, tables, cuPsp, hndl, GetSftIdx(hndl));
      }
    }

    /** `get_free_hndl`: the lowest free handle of the process. */
    method GetFreeHndl() returns (r: int)
      requires cuPsp in tables
      ensures r == DE_TOOMANY || 0 <= r < |Mine()|
      ensures if r < 0 then UNUSED !in Mine()
              else Mine()[r] == UNUSED && forall h :: 0 <= h < r ==> Mine()[h] != UNUSED
    {
      r := 0;
      while r < |Mine()|
        invariant 0 <= r <= |Mine()| && forall h :: 0 <= h < r ==> Mine()[h] != UNUSED
      {
        if Mine()[r] == UNUSED {
          return;
        }
        r := r + 1;
      }
      r := DE_TOOMANY;
    }

    /** `get_free_sft`: the lowest entry that is not in use; no handle of any process names it. */
    method GetFreeSft() returns (r: int)
      requires Valid()
      ensures r == -1 || 0 <= r < |sfts|
      ensures if r < 0 then forall i :: 0 <= i < |sfts| ==> sfts[i].count > 0
              else sfts[r].count == 0 && Named(tables, r) == {} && forall i :: 0 <= i < r ==> sfts[i].count > 0
    {
      r := 0;
      while r < |sfts|
        invariant 0 <= r <= |sfts| && forall i :: 0 <= i < r ==> sfts[i].count > 0
      {
        if sfts[r].count == 0 {
          FreeIsUnnamed(sfts, tables, r);
          return;
        }
        r := r + 1;
      }
      r := -1;
    }

    /** `DosOpenSft`: an entry for an open file or device, not yet named by a handle. */
    method DosOpenSft(o: Opening) returns (r: int)
      requires Valid() && o.check <= 0
      modifies this`sfts
      ensures Valid() && |sfts| == |old(sfts)|
      ensures r >= 0 ==> r < |sfts| && old(sfts)[r].count == 0 && Named(tables, r) == {} && o.name >= 0
                         && sfts == old(sfts)[r := Entry(1, o.device, o.device && o.openClose, o.noInherit)]
      ensures r < 0 ==> forall i :: 0 <= i < |sfts| && old(sfts)[i].count > 0 ==> sfts[i] == old(sfts)[i]
      ensures r < 0 && DriverFails(o) && old(SomeFree(sfts)) ==>
                Leaked(old(sfts), sfts, tables, Entry(1, true, true, o.noInherit))
      ensures r < 0 && old(Exact(sfts, tables)) ==> (Exact(sfts, tables) <==> !(DriverFails(o) && old(SomeFree(sfts))))
      ensures r < 0 <==> o.name < 0 || !old(SomeFree(sfts))
                         || (if o.device then DriverFails(o) else o.check < 0 || o.outcome < 0)
    {
      hide *;
      Codes();
      OpeningParts(o);
      ValidParts();
      if o.name < 0 {
        return o.name;
      }
      var i := GetFreeSft();
      FreeFound(sfts, i);
      if i < 0 {
        return DE_TOOMANY;
      }
      ghost var was := sfts;
      sfts := sfts[i := Entry(0, false, false, o.noInherit)];
      if o.device {
        sfts := sfts[i := Entry(1, true, o.openClose, o.noInherit)];
        Placed(was, i);
        if o.openClose && o.outcome != SUCCESS {
          LeakedThere(was, tables, i, sfts[i]);
          return DE_ACCESS;
        }
        return i;
      }
      if o.check < 0 {
        Placed(was, i);
        return o.check;
      }
      sfts := Counted(sfts, i, sfts[i].count + 1);
      EntryCounted(was, i, Entry(0, false, false, o.noInherit), 1);
      if o.outcome < 0 {
        sfts := Counted(sfts, i, sfts[i].count - 1);
        EntryCounted(was, i, Entry(1, false, false, o.noInherit), 0);
        Placed(was, i);
        return o.outcome;
      }
      Placed(was, i);
      r := i;
    }

    lemma ValidParts()
      requires Valid()
      ensures |sfts| <= UNUSED && cuPsp in tables && TablesOk(tables, |sfts|) && Covered(sfts, tables)
    {
    }

    /** The table stays valid when a free entry is replaced. */
    lemma Placed(was: seq<Entry>, i: nat)
      requires Covered(was, tables) && |was| <= UNUSED && cuPsp in tables && TablesOk(tables, |was|)
      requires i < |was| == |sfts| && was[i].count == 0 && sfts == was[i := sfts[i]]
      ensures Valid() && (Exact(was, tables) && sfts[i].count == 0 ==> Exact(sfts, tables))
    {
      Replaced(was, tables, i, sfts[i]);
    }

    /** `DosOpen`: the lowest free handle comes to name a new entry, and it alone. */
    method DosOpen(o: Opening) returns (r: int)
      requires Valid() && o.check <= 0
      modifies this`sfts, this`tables
      ensures Valid() && |sfts| == |old(sfts)|
      ensures r < 0 ==> tables == old(tables)
      ensures r >= 0 ==>
                r < |old(Mine())| && old(Mine())[r] == UNUSED && (forall h :: 0 <= h < r ==> old(Mine())[h] != UNUSED)
                         && GetSftIdx(r) >= 0 && tables == Set(old(tables), cuPsp, r, GetSftIdx(r))
                         && Named(old(tables), GetSftIdx(r)) == {}
                         && sfts == old(sfts)[GetSftIdx(r) := Entry(1, o.device, o.device && o.openClose, o.noInherit)]
      ensures forall i :: 0 <= i < |sfts| && old(sfts)[i].count > 0 ==> sfts[i] == old(sfts)[i]
      ensures DriverFails(o) && old(SomeFree(sfts)) && UNUSED in old(Mine()) ==>
                r < 0 && Leaked(old(sfts), sfts, tables, Entry(1, true, true, o.noInherit))
      ensures old(Exact(sfts, tables)) ==>
                (Exact(sfts, tables) <==> !(DriverFails(o) && old(SomeFree(sfts)) && UNUSED in old(Mine())))
      ensures r < 0 <==> UNUSED !in old(Mine()) || o.name < 0 || !old(SomeFree(sfts))
                            || (if o.device then DriverFails(o) else o.check < 0 || o.outcome < 0)
    {
      hide *;
      Codes();
      OpeningParts(o);
      ValidParts();
      MineIs();
      var hndl := GetFreeHndl();
      if hndl < 0 {
        return hndl;
      }
      ghost var was := sfts;
      var i := DosOpenSft(o);
      if i < 0 {
        return i;
      }
      ghost var empty := was[i := Entry(0, o.device, o.device && o.openClose, o.noInherit)];
      Replaced(was, tables, i, empty[i]);
      HandleGiven(empty, tables, cuPsp, hndl, i);
      EntryCounted(was, i, empty[i], 1);
      FreeFound(was, i);
      SetTwice(tables, cuPsp, hndl, i, i);
      tables := Set(tables, cuPsp, hndl, i);
      NowValid();
      IndexParts(hndl);
      r := hndl;
    }

    lemma NowValid()
      requires |sfts| <= UNUSED && cuPsp in tables && TablesOk(tables, |sfts|) && Covered(sfts, tables)
      ensures Valid()
    {
    }

    /** `CloneHandle`: one more user of the entry, if it can be inherited. */
    method CloneHandle(hndl: nat) returns (r: int)
      requires Valid()
      modifies this`sfts
      ensures Valid()
      ensures r == SUCCESS || r == DE_INVLDHNDL
      ensures r == SUCCESS <==> GetSftIdx(hndl) >= 0 && !old(sfts)[GetSftIdx(hndl)].noInherit
      ensures sfts == if r == SUCCESS then Counted(old(sfts), GetSftIdx(hndl), old(sfts)[GetSftIdx(hndl)].count + 1)
                      else old(sfts)
    {
      OpenIsLive(hndl);
      var i := GetSftIdx(hndl);
      if !Live(i) || sfts[i].noInherit {
        return DE_INVLDHNDL;
      }
      CountUp(sfts, tables, i);
      sfts := Counted(sfts, i, sfts[i].count + 1);
      r := SUCCESS;
    }

    /** The file table of `child_psp`: a new process gets the inheritable handles of the current one. */
    method ChildPsp(child: nat)
      requires Valid() && child != cuPsp
      modifies this`sfts, this`tables
      ensures Valid() && |sfts| == |old(sfts)| && child in tables && |tables[child]| == 20
      ensures forall p :: p in old(tables) && p != child ==> p in tables && tables[p] == old(tables)[p]
      ensures forall h :: 0 <= h < 20 ==>
                tables[child][h] == if h < |old(Mine())| && old(Mine())[h] < |old(sfts)|
                                       && !old(sfts)[old(Mine())[h]].noInherit then old(Mine())[h] else 0xFF
      ensures child !in old(tables) && old(Exact(sfts, tables)) ==> Exact(sfts, tables)
    {
      ghost var was, before, mine := sfts, tables, Mine();
      TableCleared(sfts, tables, child, PSP_FILES);
      tables := tables[child := seq(PSP_FILES, _ => UNUSED)];
      var i := 0;
      while i < PSP_FILES
        invariant 0 <= i <= PSP_FILES && Valid() && Mine() == mine && SameInherit(was, sfts)
        invariant child in tables && |tables[child]| == PSP_FILES
        invariant forall p :: p in before && p != child ==> p in tables && tables[p] == before[p]
        invariant forall h :: 0 <= h < PSP_FILES ==>
                  tables[child][h] == if h < i then Inherited(mine, was, h) else UNUSED
        invariant child !in before && Exact(was, before) ==> Exact(sfts, tables)
      {
        hide Valid, Exact;
        InheritOne(child, i, was);
        i := i + 1;
      }
    }

    /** One turn of that loop. */
    method InheritOne(child: nat, h: nat, ghost was: seq<Entry>)
      requires Valid() && child != cuPsp && child in tables && h < |tables[child]| && tables[child][h] == UNUSED
      requires SameInherit(was, sfts)
      modifies this`sfts, this`tables
      ensures Valid() && SameInherit(was, sfts) && child in tables && Mine() == old(Mine())
      ensures tables == Set(old(tables), child, h, Inherited(Mine(), was, h))
      ensures tables[child] == old(tables)[child][h := Inherited(Mine(), was, h)]
      ensures forall p :: p in old(tables) && p != child ==> p in tables && tables[p] == old(tables)[p]
      ensures old(Exact(sfts, tables)) ==> Exact(sfts, tables)
    {
      ghost var s := sfts;
      SetTwice(tables, child, h, UNUSED, UNUSED);
      var r := CloneHandle(h);
      if r >= 0 {
        HandleGiven(s, tables, child, h, Mine()[h]);
        tables := Set(tables, child, h, Mine()[h]);
      }
    }

    /** `DosCloseSft`; `outcome` is what the driver or `dos_close` says. */
    method DosCloseSft(idx: int, commitOnly: bool, outcome: int) returns (r: int)
      modifies this`sfts
      ensures !old(Live(idx)) ==> r == DE_INVLDHNDL && sfts == old(sfts)
      ensures old(Live(idx)) ==>
                && (r == SUCCESS <==> old(CloseSucceeds(idx, outcome)))
                && sfts == if r == SUCCESS && !commitOnly then Counted(old(sfts), idx, old(sfts)[idx].count - 1)
                           else old(sfts)
    {
      if !Live(idx) {
        return DE_INVLDHNDL;
      }
      if sfts[idx].device {
        if sfts[idx].openClose && outcome != SUCCESS {
          return DE_INVLDHNDL;
        }
        if !commitOnly {
          sfts := Counted(sfts, idx, sfts[idx].count - 1);
        }
        return SUCCESS;
      }
      if commitOnly || outcome != SUCCESS {
        return outcome;
      }
      sfts := Counted(sfts, idx, sfts[idx].count - 1);
      r := SUCCESS;
    }

    /** Whether closing meets no error: a device whose driver is not told cannot fail. */
    predicate CloseSucceeds(idx: int, outcome: int)
      requires Live(idx)
      reads this
    {
      outcome == SUCCESS || (sfts[idx].device && !sfts[idx].openClose)
    }

    /** `DosClose`: the handle is free again whatever happens; its entry is counted down if nothing fails. */
    method DosClose(hndl: nat, outcome: int) returns (r: int)
      requires Valid()
      modifies this`sfts, this`tables
      ensures Valid() && |sfts| == |old(sfts)|
      ensures old(GetSftIdx(hndl)) < 0 ==> r == DE_INVLDHNDL && sfts == old(sfts) && tables == old(tables)
      ensures old(GetSftIdx(hndl)) >= 0 ==>
                && hndl < |old(Mine())| && tables == Set(old(tables), cuPsp, hndl, UNUSED)
                && old(Live(GetSftIdx(hndl))) && (r == SUCCESS <==> old(CloseSucceeds(GetSftIdx(hndl), outcome)))
                && sfts == if r == SUCCESS then Counted(old(sfts), old(GetSftIdx(hndl)),
                                   old(sfts)[old(GetSftIdx(hndl))].count - 1)
                           else old(sfts)
      ensures old(GetSftIdx(hndl)) >= 0 && old(Exact(sfts, tables)) ==> (Exact(sfts, tables) <==> r == SUCCESS)
    {
      OpenIsLive(hndl);
      var idx := GetSftIdx(hndl);
      if !Live(idx) {
        return DE_INVLDHNDL;
      }
      ghost var was, before := sfts, tables;
      HandleTaken(sfts, tables, cuPsp, hndl);
      HandleSet(before, cuPsp, hndl, UNUSED, idx);
      tables := Set(tables, cuPsp, hndl, UNUSED);
      r := DosCloseSft(idx, false, outcome);
      assert r != SUCCESS ==> sfts[idx].count == was[idx].count;
    }

    /** The table once the handle that is asked for is closed. */
    ghost function Closed(newHandle: nat): (u: seq<Entry>)
      requires Valid()
      reads this
      ensures |u| == |sfts|
    {
      var j := GetSftIdx(newHandle);
      if Live(j) then Counted(sfts, j, sfts[j].count - 1) else sfts
    }

    /** `DosForceDup`: a given handle comes to name the entry of another; what it named before is closed first.
        The handle is not checked against the length of the table: past it, there is a byte `there` of something
        else, which is changed if it happens to be UNUSED; `byte` is what it becomes. */
    method DosForceDup(oldHandle: nat, newHandle: nat, outcome: int, there: nat) returns (r: int, byte: nat)
      requires Valid()
      modifies this`sfts, this`tables
      ensures Valid() && |sfts| == |old(sfts)|
      ensures old(GetSftIdx(oldHandle)) < 0 ==>
                r == DE_INVLDHNDL && sfts == old(sfts) && tables == old(tables) && byte == there
      ensures old(GetSftIdx(oldHandle)) >= 0 ==>
                (r == SUCCESS <==> if newHandle >= |old(Mine())| then there == UNUSED
                                   else old(Mine())[newHandle] == UNUSED
                                        || old(Live(Mine()[newHandle]) && CloseSucceeds(Mine()[newHandle], outcome)))
      ensures old(GetSftIdx(oldHandle)) >= 0 && r != SUCCESS ==>
                sfts == old(sfts) && byte == there
                && tables == if newHandle < |old(Mine())| then Set(old(tables), cuPsp, newHandle, UNUSED)
                             else old(tables)
      ensures r == SUCCESS ==>
                && old(GetSftIdx(oldHandle)) >= 0
                && sfts == Counted(old(Closed(newHandle)), old(GetSftIdx(oldHandle)),
                           old(Closed(newHandle))[old(GetSftIdx(oldHandle))].count + 1)
                && (if newHandle < |old(Mine())|
                    then byte == there
                    && tables == Set(old(tables), cuPsp, newHandle,
                                  if oldHandle == newHandle then UNUSED else old(GetSftIdx(oldHandle)))
                    else byte == old(GetSftIdx(oldHandle)) && tables == old(tables))
      ensures r == SUCCESS && old(Exact(sfts, tables)) ==>
                (Exact(sfts, tables) <==> oldHandle != newHandle && newHandle < |old(Mine())|)
    {
      hide *;
      Codes();
      OpenIsLive(oldHandle);
      OpenIsLive(newHandle);
      IndexParts(oldHandle);
      IndexParts(newHandle);
      byte := there;
      var idx := GetSftIdx(oldHandle);
      if !Live(idx) {
        return DE_INVLDHNDL, byte;
      }
      var inside := newHandle < |Mine()|;
      if inside {
        SetTwice(tables, cuPsp, newHandle, UNUSED, if oldHandle == newHandle then UNUSED else idx);
      }
      if (if inside then Mine()[newHandle] else there) != UNUSED {
        r := DosClose(newHandle, outcome);
        if r != SUCCESS {
          return;
        }
        MineIs();
      }
      if inside {
        r := NameAgain(oldHandle, newHandle, idx);
      } else {
        byte := idx;
        r := CountOnly(idx);
      }
    }

    lemma MineIs()
      requires Valid()
      ensures cuPsp in tables && Mine() == tables[cuPsp]
    {
    }

    lemma IndexParts(h: nat)
      requires Valid()
      ensures cuPsp in tables && Mine() == tables[cuPsp] && |sfts| <= UNUSED
      ensures GetSftIdx(h) == if h >= |Mine()| || Mine()[h] == UNUSED then DE_INVLDHNDL else Mine()[h]
      ensures Live(GetSftIdx(h)) ==> GetSftIdx(h) < |sfts|
      ensures Closed(h) == if Live(GetSftIdx(h)) then Counted(sfts, GetSftIdx(h), sfts[GetSftIdx(h)].count - 1)
                           else sfts
    {
    }

    /** The end of `DosForceDup` past the table: the entry is counted up for no handle. */
    method CountOnly(idx: nat) returns (r: int)
      requires Valid() && idx < |sfts|
      modifies this`sfts
      ensures Valid() && r == SUCCESS && sfts == Counted(old(sfts), idx, old(sfts)[idx].count + 1)
      ensures old(Exact(sfts, tables)) ==> !Exact(sfts, tables)
    {
      ghost var was := sfts;
      CountUp(sfts, tables, idx);
      sfts := Counted(sfts, idx, sfts[idx].count + 1);
      assert sfts[idx].count == was[idx].count + 1;
      r := SUCCESS;
    }

    /** The end of `DosForceDup`: the handle is copied and the entry counted up. */
    method NameAgain(oldHandle: nat, newHandle: nat, idx: nat) returns (r: int)
      requires Valid() && newHandle < |Mine()| && oldHandle < |Mine()| && Mine()[newHandle] == UNUSED && idx < |sfts|
      requires oldHandle != newHandle ==> Mine()[oldHandle] == idx
      modifies this`sfts, this`tables
      ensures Valid() && r == SUCCESS && sfts == Counted(old(sfts), idx, old(sfts)[idx].count + 1)
      ensures tables == Set(old(tables), cuPsp, newHandle, if oldHandle == newHandle then UNUSED else idx)
      ensures old(Exact(sfts, tables)) ==> (Exact(sfts, tables) <==> oldHandle != newHandle)
    {
      ghost var was := sfts;
      SetTwice(tables, cuPsp, newHandle, UNUSED, UNUSED);
      if oldHandle != newHandle {
        HandleGiven(sfts, tables, cuPsp, newHandle, idx);
      } else {
        CountUp(sfts, tables, idx);
      }
      tables := Set(tables, cuPsp, newHandle, Mine()[oldHandle]);
      sfts := Counted(sfts, idx, sfts[idx].count + 1);
      assert sfts[idx].count == was[idx].count + 1;
      r := SUCCESS;
    }

    /** `DosDup`: the lowest free handle comes to name the entry of another. */
    method DosDup(hndl: nat) returns (r: int)
      requires Valid()
      modifies this`sfts, this`tables
      ensures Valid() && |sfts| == |old(sfts)|
      ensures r < 0 ==> sfts == old(sfts) && tables == old(tables)
      ensures r >= 0 ==> r < |old(Mine())| && old(Mine())[r] == UNUSED && old(GetSftIdx(hndl)) >= 0
                         && tables == Set(old(tables), cuPsp, r, old(GetSftIdx(hndl)))
                         && sfts == Counted(old(sfts), old(GetSftIdx(hndl)), old(sfts)[old(GetSftIdx(hndl))].count + 1)
      ensures r >= 0 <==> old(GetSftIdx(hndl)) >= 0 && UNUSED in old(Mine())
      ensures old(Exact(sfts, tables)) ==> Exact(sfts, tables)
    {
      var newHandle := GetFreeHndl();
      if newHandle < 0 {
        return newHandle;
      }
      OpenIsLive(hndl);
      var dup, _ := DosForceDup(hndl, newHandle, SUCCESS, UNUSED);
      r := if dup < 0 then DE_INVLDHNDL else newHandle;
    }
  }

  /** One process with one handle: nothing is open, or the handle names the only entry. */
  lemma OneHandle(p: nat, e: Entry)
    ensures e.count == 0 ==>
              Exact([e], map[p := [UNUSED]]) && Covered([e], map[p := [UNUSED]]) && TablesOk(map[p := [UNUSED]], 1)
    ensures e.count == 1 ==> Exact([e], map[p := [0]]) && Covered([e], map[p := [0]]) && TablesOk(map[p := [0]], 1)
  {
    var none: Tables, one: Tables := map[p := [UNUSED]], map[p := [0]];
    assert Named(none, 0) == {} by {
      forall x: (nat, nat) ensures x !in Named(none, 0) {
        assert x == (x.0, x.1) && !Names(none, x.0, x.1, 0);
      }
    }
    assert Named(one, 0) == {(p, 0)} by {
      forall x: (nat, nat) ensures x in Named(one, 0) <==> x == (p, 0) {
        assert x == (x.0, x.1) && (x in Named(one, 0) <==> Names(one, x.0, x.1, 0));
      }
    }
  }

  /** The counts go wrong: a driver refuses an open when there was a free entry and a free handle. */
  method RefusedOpenLeaks() returns (f: OpenFiles, r: int)
    ensures fresh(f) && f.Valid() && r < 0 && f.sfts == [Entry(1, true, true, false)] && Named(f.tables, 0) == {}
  {
    OneHandle(1, Entry(0, false, false, false));
    f := new OpenFiles([Entry(0, false, false, false)], map[1 := [UNUSED]], 1);
    assert SomeFree(f.sfts) by {
      assert f.sfts[0].count == 0;
    }
    assert UNUSED in f.Mine() by {
      assert f.Mine()[0] == UNUSED;
    }
    r := f.DosOpen(Opening(0, true, true, false, 0, DE_ACCESS));
  }

  /** The counts go wrong: a handle is duplicated to one past the table. */
  method DuplicatedPastTable() returns (f: OpenFiles, r: int, byte: nat)
    ensures fresh(f) && f.Valid() && r == SUCCESS && byte == 0 && f.sfts == [Entry(2, false, false, false)]
    ensures f.tables == map[1 := [0]]
  {
    OneHandle(1, Entry(1, false, false, false));
    f := new OpenFiles([Entry(1, false, false, false)], map[1 := [0]], 1);
    r, byte := f.DosForceDup(0, 1, SUCCESS, UNUSED);
  }
}
