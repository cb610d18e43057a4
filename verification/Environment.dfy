/** The master environment of kernel/config.c: NAME=VALUE strings packed one after the other into
    128 bytes, which the SET command of CONFIG.SYS changes in place. */
module Environment {

  const ENV_SIZE: nat := 128

  datatype Var = Var(name: string, value: string)

  function Entry(v: Var): (r: string)
    ensures |r| == |v.name| + 1 + |v.value|
  {
    v.name + "=" + v.value
  }

  /** The strings as they lie in the buffer, each with its terminator. */
  function Flat(vars: seq<Var>): string {
    if vars == [] then "" else Entry(vars[0]) + "\0" + Flat(vars[1..])
  }

  predicate VarOk(v: Var) {
    '=' !in v.name && '\0' !in v.name && '\0' !in v.value && v.value != ""
  }

  /** No two variables have one name. */
  ghost predicate Distinct(vars: seq<Var>) {
    forall i, j :: 0 <= i < j < |vars| ==> vars[i].name != vars[j].name
  }

  ghost predicate VarsOk(vars: seq<Var>) {
    Distinct(vars) && forall v :: v in vars ==> VarOk(v)
  }

  /** What the variables say. */
  function AsMap(vars: seq<Var>): map<string, string> {
    if vars == [] then map[] else AsMap(vars[1..])[vars[0].name := vars[0].value]
  }

  lemma {:induction false} MapNames(vars: seq<Var>, n: string)
    ensures n in AsMap(vars) <==> exists i :: 0 <= i < |vars| && vars[i].name == n
  {
    if vars != [] {
      MapNames(vars[1..], n);
      if i :| 0 <= i < |vars| && vars[i].name == n {
        assert i > 0 ==> vars[1..][i - 1].name == n;
      }
      if n in AsMap(vars[1..]) {
        var i :| 0 <= i < |vars[1..]| && vars[1..][i].name == n;
        assert vars[i + 1].name == n;
      }
    }
  }

  lemma {:induction false} MapValue(vars: seq<Var>, i: nat)
    requires Distinct(vars) && i < |vars|
    ensures vars[i].name in AsMap(vars) && AsMap(vars)[vars[i].name] == vars[i].value
  {
    if i > 0 {
      assert vars[1..][i - 1] == vars[i];
      TailDistinct(vars);
      MapValue(vars[1..], i - 1);
    }
  }

  lemma TailDistinct(vars: seq<Var>)
    requires Distinct(vars) && vars != []
    ensures Distinct(vars[1..])
  {
  }

  /** The variables without the one at `k`. */
  function Removed(vars: seq<Var>, k: nat): (r: seq<Var>)
    requires k < |vars|
  {
    vars[..k] + vars[k + 1..]
  }

  lemma {:induction false} MapRemoved(vars: seq<Var>, k: nat)
    requires Distinct(vars) && k < |vars|
    ensures AsMap(Removed(vars, k)) == AsMap(vars) - {vars[k].name}
    decreases k
  {
    RemovedParts(vars, k);
    MapFirst(vars);
    hide *;
    if k == 0 {
      NotInTail(vars);
    } else {
      TailDistinct(vars);
      MapRemoved(vars[1..], k - 1);
      MapFirst(Removed(vars, k));
      FirstIsOther(vars, k);
    }
  }

  lemma MapFirst(vars: seq<Var>)
    requires vars != []
    ensures AsMap(vars) == AsMap(vars[1..])[vars[0].name := vars[0].value]
  {
  }

  lemma RemovedParts(vars: seq<Var>, k: nat)
    requires k < |vars|
    ensures k == 0 ==> Removed(vars, k) == vars[1..]
    ensures k > 0 ==> vars[1..][k - 1] == vars[k] && Removed(vars, k) != []
                      && Removed(vars, k)[0] == vars[0] && Removed(vars, k)[1..] == Removed(vars[1..], k - 1)
  {
  }

  lemma NotInTail(vars: seq<Var>)
    requires Distinct(vars) && vars != []
    ensures vars[0].name !in AsMap(vars[1..])
  {
    hide AsMap;
    MapNames(vars[1..], vars[0].name);
  }

  lemma FirstIsOther(vars: seq<Var>, k: nat)
    requires Distinct(vars) && 0 < k < |vars|
    ensures vars[0].name != vars[k].name
  {
  }

  lemma {:induction false} MapAppended(vars: seq<Var>, v: Var)
    requires v.name !in AsMap(vars)
    ensures AsMap(vars + [v]) == AsMap(vars)[v.name := v.value]
  {
    if vars == [] {
      assert ([] + [v])[1..] == [];
    } else {
      assert (vars + [v])[1..] == vars[1..] + [v];
      MapAppended(vars[1..], v);
    }
  }

  lemma RemovedOk(vars: seq<Var>, k: nat)
    requires VarsOk(vars) && k < |vars|
    ensures VarsOk(Removed(vars, k)) && vars[k].name !in AsMap(Removed(vars, k))
  {
    var r := Removed(vars, k);
    forall i, j | 0 <= i < j < |r| ensures r[i].name != r[j].name {
      assert r[i] == vars[if i < k then i else i + 1] && r[j] == vars[if j < k then j else j + 1];
    }
    MapRemoved(vars, k);
  }

  lemma AppendedOk(vars: seq<Var>, v: Var)
    requires VarsOk(vars) && VarOk(v) && v.name !in AsMap(vars)
    ensures VarsOk(vars + [v])
  {
    forall i | 0 <= i < |vars| ensures vars[i].name != v.name {
      MapNames(vars, vars[i].name);
    }
  }

  lemma {:induction false} FlatJoin(a: seq<Var>, b: seq<Var>)
    ensures Flat(a + b) == Flat(a) + Flat(b)
  {
    if a == [] {
      assert a + b == b;
    } else {
      assert (a + b)[1..] == a[1..] + b;
      FlatJoin(a[1..], b);
    }
  }

  /** What lies before, at and behind variable `k`. */
  lemma FlatAt(vars: seq<Var>, k: nat)
    requires k < |vars|
    ensures Flat(vars) == Flat(vars[..k]) + (Entry(vars[k]) + "\0") + Flat(vars[k + 1..])
    ensures Flat(Removed(vars, k)) == Flat(vars[..k]) + Flat(vars[k + 1..])
    ensures Flat(vars[..k + 1]) == Flat(vars[..k]) + (Entry(vars[k]) + "\0")
  {
    hide *;
    var a, b, e := vars[..k], vars[k + 1..], vars[k];
    SplitAt(vars, k);
    FlatFirst(vars[k..]);
    FlatFirst([e]);
    FlatJoin(a, b);
    FlatJoin(a, vars[k..]);
    FlatJoin(a, [e]);
    RemovedIs(vars, k);
    Associate(Flat(a), Entry(e) + "\0", Flat(b));
  }

  lemma SplitAt(vars: seq<Var>, k: nat)
    requires k < |vars|
    ensures vars == vars[..k] + vars[k..] && vars[..k + 1] == vars[..k] + [vars[k]]
    ensures vars[k..] != [] && vars[k..][0] == vars[k] && vars[k..][1..] == vars[k + 1..]
  {
  }

  lemma FlatFirst(vars: seq<Var>)
    requires vars != []
    ensures Flat(vars) == Entry(vars[0]) + "\0" + Flat(vars[1..])
    ensures |vars| == 1 ==> Flat(vars) == Entry(vars[0]) + "\0"
  {
  }

  lemma RemovedIs(vars: seq<Var>, k: nat)
    requires k < |vars|
    ensures Removed(vars, k) == vars[..k] + vars[k + 1..]
  {
  }

  lemma Associate(a: string, b: string, c: string)
    ensures a + (b + c) == a + b + c
  {
  }

  lemma NoEqualsBefore(name: string, s: string)
    requires '=' !in name && |name| <= |s| && s[..|name|] == name
    ensures forall k :: 0 <= k < |name| ==> s[k] != '='
  {
    forall k | 0 <= k < |name| ensures s[k] != '=' {
      assert name[k] in name && s[..|name|][k] == name[k];
    }
  }

  /** A name with its equal sign is at the front of one variable only. */
  lemma PrefixNames(name: string, v: Var, rest: string)
    requires '=' !in name && VarOk(v)
    ensures |name| + 1 <= |Entry(v) + "\0" + rest| && (Entry(v) + "\0" + rest)[..|name| + 1] == name + "=" <==>
            name == v.name
  {
    var s := Entry(v) + "\0" + rest;
    assert s[..|v.name|] == v.name && s[|v.name|] == '=' && s[..|v.name| + 1] == v.name + "=";
    NoEqualsBefore(v.name, s);
    if |name| + 1 <= |s| && s[..|name| + 1] == name + "=" {
      assert s[..|name|] == s[..|name| + 1][..|name|] == name && s[|name|] == s[..|name| + 1][|name|];
      NoEqualsBefore(name, s);
      assert |v.name| == |name|;
    }
  }

  /** `strupr`. */
  function Upper(c: char): char {
    if 'a' <= c <= 'z' then c - 'a' + 'A' else c
  }

  function UpperAll(s: string): (r: string)
    ensures |r| == |s| && forall i :: 0 <= i < |s| ==> r[i] == Upper(s[i])
    ensures forall i :: 0 <= i < |s| ==> r[i] as int == s[i] as int - if 97 <= s[i] as int <= 122 then 32 else 0
  {
    seq(|s|, i requires 0 <= i < |s| => Upper(s[i]))
  }

  lemma UpperKeeps(s: string)
    ensures ('=' in UpperAll(s) <==> '=' in s) && ('\0' in UpperAll(s) <==> '\0' in s)
  {
    var r := UpperAll(s);
    forall x | x == '=' || x == '\0' ensures x in r <==> x in s {
      if x in s {
        var i :| 0 <= i < |s| && s[i] == x;
        assert r[i] == x;
      }
      if x in r {
        var i :| 0 <= i < |r| && r[i] == x;
        assert s[i] == x;
      }
    }
  }

  /** The buffer holds these variables and three zeros behind them. */
  ghost predicate Holds(buf: seq<char>, envp: nat, vars: seq<Var>) {
    && |buf| == ENV_SIZE && envp + 2 < ENV_SIZE && buf[..envp] == Flat(vars)
    && buf[envp] == '\0' && buf[envp + 1] == '\0' && buf[envp + 2] == '\0' && VarsOk(vars)
  }

  /** Where variable `k` begins. */
  function Start(vars: seq<Var>, k: nat): nat
    requires k <= |vars|
  {
    |Flat(vars[..k])|
  }

  /** What is in the buffer from a variable on. */
  lemma HeldAt(buf: seq<char>, envp: nat, vars: seq<Var>, k: nat)
    requires Holds(buf, envp, vars) && k < |vars|
    ensures var p := Start(vars, k);
            && p + |Entry(vars[k])| < envp && envp == |Flat(vars)| && envp + 2 < |buf| == 128
            && buf[p..p + |Entry(vars[k])|] == Entry(vars[k]) && buf[p + |Entry(vars[k])|] == '\0'
            && Start(vars, k + 1) == p + |Entry(vars[k])| + 1 && VarOk(vars[k])
            && buf[p..envp] == Entry(vars[k]) + "\0" + Flat(vars[k + 1..])
            && Flat(Removed(vars, k)) == buf[..p] + buf[p + |Entry(vars[k])| + 1..envp]
  {
    hide *;
    HoldsParts(buf, envp, vars, k);
    FlatAt(vars, k);
    StartIs(vars, k);
    Slices(buf, envp, Flat(vars), Flat(vars[..k]), Entry(vars[k]), Flat(vars[k + 1..]));
  }

  lemma HoldsParts(buf: seq<char>, envp: nat, vars: seq<Var>, k: nat)
    requires Holds(buf, envp, vars) && k < |vars|
    ensures |buf| == 128 && envp + 2 < 128 && buf[..envp] == Flat(vars) && VarOk(vars[k])
  {
    hide Flat;
    assert vars[k] in vars;
  }

  lemma StartIs(vars: seq<Var>, k: nat)
    requires k < |vars|
    ensures Start(vars, k) == |Flat(vars[..k])| && Start(vars, k + 1) == |Flat(vars[..k + 1])|
  {
  }

  lemma Slices(buf: seq<char>, envp: nat, f: string, a: string, e: string, b: string)
    requires envp <= |buf| && buf[..envp] == f == a + (e + "\0") + b
    ensures |a| + |e| < envp == |f| && buf[|a|..|a| + |e|] == e && buf[|a| + |e|] == '\0'
    ensures buf[|a|..envp] == e + "\0" + b && a + b == buf[..|a|] + buf[|a| + |e| + 1..envp]
  {
    assert buf[|a|..envp] == f[|a|..] == e + "\0" + b;
    assert buf[|a|..|a| + |e|] == f[|a|..|a| + |e|] == e;
    assert buf[|a| + |e|] == f[|a| + |e|] == '\0';
    assert buf[..|a|] == f[..|a|] == a;
    assert buf[|a| + |e| + 1..envp] == f[|a| + |e| + 1..] == b;
  }

  /** `n` bytes were moved from `from` down to `to`. */
  ghost predicate Moved(b: seq<char>, b': seq<char>, to: nat, from: nat, n: nat) {
    && to <= from && from + n <= |b| == |b'|
    && (forall j :: 0 <= j < to || to + n <= j < |b| ==> b'[j] == b[j])
    && forall j :: to <= j < to + n ==> b'[j] == b[j + (from - to)]
  }

  lemma MovedNone(b: seq<char>, to: nat, from: nat)
    requires to <= from <= |b|
    ensures Moved(b, b, to, from, 0)
  {
  }

  lemma MovedOne(b: seq<char>, b': seq<char>, to: nat, from: nat, i: nat)
    requires Moved(b, b', to, from, i) && from + i < |b|
    ensures |b'| == |b| && Moved(b, b'[to + i := b'[from + i]], to, from, i + 1)
  {
  }

  /** The text after a part of it was moved down over another. */
  lemma MovedText(b: seq<char>, b': seq<char>, p: nat, n: nat, at: nat, now: nat)
    requires p + n <= at && at + 3 <= |b| && now == at - n && Moved(b, b', p, p + n, at + 3 - (p + n))
    ensures |b'| == |b| && b'[..now] == b[..p] + b[p + n..at]
    ensures b'[now] == b[at] && b'[now + 1] == b[at + 1] && b'[now + 2] == b[at + 2]
  {
    assert forall j :: p <= j < now + 3 ==> b'[j] == b[j + n];
  }

  /** The text of variable `k` was moved over: what is in the buffer now. */
  lemma RemovedThere(b: seq<char>, b': seq<char>, at: nat, now: nat, vars: seq<Var>, k: nat, p: nat, n: nat)
    requires Holds(b, at, vars) && k < |vars| && p == Start(vars, k) && n == |Entry(vars[k])| + 1
    requires p + n <= at && at + 3 <= |b| && now == at - n && Moved(b, b', p, p + n, at + 3 - (p + n))
    ensures Holds(b', now, Removed(vars, k))
  {
    hide *;
    HeldAt(b, at, vars, k);
    HoldsZeros(b, at, vars);
    RemovedOk(vars, k);
    MovedText(b, b', p, n, at, now);
    NowHolds(b', now, Removed(vars, k));
  }

  lemma HoldsZeros(b: seq<char>, at: nat, vars: seq<Var>)
    requires Holds(b, at, vars)
    ensures |b| == 128 && at + 2 < 128 && b[at] == '\0' && b[at + 1] == '\0' && b[at + 2] == '\0' && VarsOk(vars)
  {
    hide VarsOk, Flat;
  }

  lemma NowHolds(b: seq<char>, at: nat, vars: seq<Var>)
    requires |b| == 128 && at + 2 < 128 && b[..at] == Flat(vars) && VarsOk(vars)
    requires b[at] == '\0' && b[at + 1] == '\0' && b[at + 2] == '\0'
    ensures Holds(b, at, vars)
  {
    hide VarsOk, Flat;
  }

  /** Whether a text begins with another one, seen in the buffer. */
  lemma SliceMatch(b: seq<char>, p: nat, at: nat, s: string, n: string)
    requires p <= at <= |b| && b[p..at] == s
    ensures p + |n| <= at && b[p..p + |n|] == n <==> |n| <= |s| && s[..|n|] == n
  {
    if |n| <= |s| {
      assert s[..|n|] == b[p..p + |n|];
    }
  }

  /** A text written at `at`, with its zero. */
  lemma Written(b: seq<char>, b': seq<char>, at: nat, s: string)
    requires at + |s| < |b| == |b'| && b'[at + |s|] == '\0'
    requires forall i :: 0 <= i < at ==> b'[i] == b[i]
    requires forall i :: 0 <= i < |s| ==> b'[at + i] == s[i]
    ensures b'[..at + |s| + 1] == b[..at] + (s + "\0")
  {
    forall i | at <= i < at + |s| ensures b'[i] == s[i - at] {
      assert b'[at + (i - at)] == s[i - at];
    }
  }

  /** The master environment. */
  class MasterEnv {
    /** `master_env`, and the place of the next variable. */
    const buf: array<char>
    var envp: nat
    ghost var vars: seq<Var>

    constructor ()
      ensures Valid() && fresh(buf) && AsMap(vars) == map[]
    {
      buf := new char[ENV_SIZE](_ => '\0');
      envp := 0;
      vars := [];
    }

    ghost predicate Valid()
      reads this, buf
    {
      Holds(buf[..], envp, vars)
    }

    lemma Bounds()
      requires Valid()
      ensures buf.Length == 128 && envp + 2 < 128 && ENV_SIZE == 128 && buf[envp] == '\0' && buf[envp + 1] == '\0'
      ensures buf[envp + 2] == '\0' && |Flat(vars)| == envp
      ensures Start(vars, 0) == 0 && (vars == [] <==> envp == 0)
      ensures buf[..envp] == Flat(vars) && VarsOk(vars) && Holds(buf[..], envp, vars)
    {
      assert buf[envp] == buf[..][envp] && buf[envp + 1] == buf[..][envp + 1] && buf[envp + 2] == buf[..][envp + 2];
      assert vars[..0] == [] && buf[..envp] == buf[..][..envp];
      if vars != [] {
        FlatFirst(vars);
      }
    }

    /** Variable `k` in the buffer. */
    lemma At(k: nat)
      requires Valid() && k < |vars|
      ensures buf.Length == 128 && envp + 2 < 128 && Start(vars, k + 1) <= envp
      ensures (k + 1 == |vars| ==> Start(vars, k + 1) == envp)
      ensures var p, n := Start(vars, k), |Entry(vars[k])|;
              p + n < envp && n > 0 && buf[p + n] == '\0' && Start(vars, k + 1) == p + n + 1
              && forall i :: p <= i < p + n ==> buf[i] != '\0'
    {
      HeldAt(buf[..], envp, vars, k);
      Bounds();
      StartWhole(vars);
      var b, p, e := buf[..], Start(vars, k), Entry(vars[k]);
      var q := Start(vars, k + 1);
      assert k + 1 == |vars| ==> q == envp;
      hide *;
      forall i | p <= i < p + |e| ensures buf[i] != '\0' {
        assert buf[i] == b[i] == b[p..p + |e|][i - p];
        NoZeroIn(vars[k], i - p);
      }
    }

    lemma StartWhole(vs: seq<Var>)
      ensures Start(vs, |vs|) == |Flat(vs)|
    {
      assert vs[..|vs|] == vs;
    }

    /** Whether its name is `name`. */
    lemma Matches(name: string, k: nat)
      requires Valid() && k < |vars| && '=' !in name
      ensures var p := Start(vars, k);
              buf.Length == 128 && envp < 128
              && (p + |name| + 1 <= envp && buf[p..p + |name| + 1] == name + "=" <==> name == vars[k].name)
    {
      hide *;
      Bounds();
      HeldAt(buf[..], envp, vars, k);
      var p, n := Start(vars, k), name + "=";
      PrefixNames(name, vars[k], Flat(vars[k + 1..]));
      SliceMatch(buf[..], p, envp, Entry(vars[k]) + "\0" + Flat(vars[k + 1..]), n);
      if p + |n| <= envp {
        BufSlice(p, p + |n|);
      }
    }

    lemma BufSlice(p: nat, q: nat)
      requires p <= q <= buf.Length
      ensures buf[p..q] == buf[..][p..q]
    {
    }

    lemma NoZeroIn(v: Var, i: nat)
      requires VarOk(v) && i < |Entry(v)|
      ensures Entry(v)[i] != '\0'
    {
      var e := Entry(v);
      if i < |v.name| {
        assert e[i] == v.name[i] && v.name[i] in v.name;
      } else if i > |v.name| {
        assert e[i] == v.value[i - |v.name| - 1] && v.value[i - |v.name| - 1] in v.value;
      }
    }

    /** `fstrlen`. */
    method StrLen(p: nat) returns (n: nat)
      requires buf.Length == 128 && p < 128 && exists i :: p <= i < 128 && buf[i] == '\0'
      ensures p + n < 128 && buf[p + n] == '\0' && forall i :: p <= i < p + n ==> buf[i] != '\0'
    {
      n := 0;
      while buf[p + n] != '\0'
        invariant p + n < 128 && forall i :: p <= i < p + n ==> buf[i] != '\0'
        invariant exists i :: p + n <= i < 128 && buf[i] == '\0'
        decreases 128 - n
      {
        n := n + 1;
      }
    }

    /** `searchvar`: where the variable of a name begins, or -1; `k` is its number. */
    method SearchVar(name: string) returns (pp: int, ghost k: nat)
      requires Valid() && '=' !in name && '\0' !in name
      ensures pp >= 0 ==> k < |vars| && vars[k].name == name && pp == Start(vars, k)
      ensures pp < 0 ==> name !in AsMap(vars)
    {
      hide *;
      Bounds();
      var p := 0;
      k := 0;
      while true
        invariant k <= |vars| && p <= envp && if k < |vars| then p == Start(vars, k) else vars == [] && p == 0
        invariant forall i :: 0 <= i < k ==> vars[i].name != name
        decreases |vars| - k, 128 - p
      {
        if k < |vars| {
          At(k);
          Matches(name, k);
        }
        if p + |name| + 1 <= 128 && buf[p..p + |name| + 1] == name + "=" {
          Inside(name, p);
          return p, k;
        }
        var n := StrLen(p);
        p := p + n + 1;
        if k + 1 < |vars| {
          At(k + 1);
        }
        if buf[p] == '\0' {
          break;
        }
        k := k + 1;
      }
      MapNames(vars, name);
      pp := -1;
    }

    /** A name found is found in front of the end. */
    lemma Inside(name: string, p: nat)
      requires Valid() && '\0' !in name && buf.Length == 128 && p <= envp && p + |name| + 1 <= 128
      requires buf[p..p + |name| + 1] == name + "="
      ensures p + |name| + 1 <= envp
    {
      Bounds();
      var s := name + "=";
      forall i | p <= i < p + |s| ensures buf[i] != '\0' {
        assert buf[i] == buf[p..p + |name| + 1][i - p] == s[i - p] && s[i - p] in s;
      }
    }

    /** `fmemcpy` forward, over the bytes it copies. */
    method MoveDown(to: nat, from: nat, n: nat)
      requires to <= from && from + n <= buf.Length
      modifies buf
      ensures Moved(old(buf[..]), buf[..], to, from, n)
    {
      hide *;
      ghost var b := buf[..];
      MovedNone(b, to, from);
      var i := 0;
      while i < n
        invariant 0 <= i <= n && Moved(b, buf[..], to, from, i)
      {
        MovedOne(b, buf[..], to, from, i);
        Copy(to + i, from + i);
        i := i + 1;
      }
    }

    method Copy(to: nat, from: nat)
      requires to < buf.Length && from < buf.Length
      modifies buf
      ensures buf[..] == old(buf[..])[to := old(buf[..])[from]]
    {
      buf[to] := buf[from];
    }

    /** `deletevar` of variable `k`; `pp` is where it begins, or -1 if there is none. */
    method DeleteVar(pp: int, ghost k: nat)
      requires Valid() && (pp >= 0 ==> k < |vars| && pp == Start(vars, k))
      modifies this`envp, this`vars, buf
      ensures Valid() && vars == if pp >= 0 then Removed(old(vars), k) else old(vars)
    {
      if pp < 0 {
        return;
      }
      hide *;
      Bounds();
      At(k);
      HeldAt(buf[..], envp, vars, k);
      ghost var b, was, at := buf[..], vars, envp;
      var variableLength := StrLen(pp);
      variableLength := variableLength + 1;
      MoveDown(pp, pp + variableLength, envp + 3 - (pp + variableLength));
      envp := envp - variableLength;
      vars := Removed(vars, k);
      RemovedThere(b, buf[..], at, envp, was, k, pp, variableLength);
      ValidIs();
    }

    lemma ValidIs()
      ensures Valid() <==> Holds(buf[..], envp, vars)
    {
    }

    /** A variable written behind the others. */
    method Append(s: string, ghost v: Var)
      requires Valid() && VarOk(v) && v.name !in AsMap(vars) && s == Entry(v) && envp + |s| + 1 + 2 < 128
      modifies this`envp, this`vars, buf
      ensures Valid() && vars == old(vars) + [v]
    {
      hide *;
      Bounds();
      AppendedOk(vars, v);
      ghost var b, at := buf[..], envp;
      var n := |s|;
      forall i | 0 <= i < n {
        buf[envp + i] := s[i];
      }
      buf[envp + n] := '\0';
      envp := envp + n + 1;
      buf[envp] := '\0';
      buf[envp + 1] := '\0';
      buf[envp + 2] := '\0';
      FlatJoin(vars, [v]);
      FlatFirst([v]);
      vars := vars + [v];
      Written(b, buf[..], at, s);
      Whole(buf[..]);
    }

    lemma Whole(b: seq<char>)
      requires b == buf[..] && |b| == 128 && envp + 2 < 128 && b[..envp] == Flat(vars) && VarsOk(vars)
      requires b[envp] == '\0' && b[envp + 1] == '\0' && b[envp + 2] == '\0'
      ensures Valid()
    {
    }

    /** `CmdSet`: gives a variable a value, or takes it away for an empty one; what does not fit changes nothing. */
    method CmdSet(name0: string, value: string) returns (ok: bool)
      requires Valid() && '=' !in name0 && '\0' !in name0 && '\0' !in value
      modifies this`envp, this`vars, buf
      ensures Valid()
      ensures ok ==> AsMap(vars) == if value == "" then old(AsMap(vars)) - {UpperAll(name0)}
                                    else old(AsMap(vars))[UpperAll(name0) := value]
      ensures !ok ==> buf[..] == old(buf[..]) && envp == old(envp) && vars == old(vars)
      ensures ok <==> value == "" || old(LengthWithout(UpperAll(name0))) + |name0| + 1 + |value| + 1 + 2 < ENV_SIZE
    {
      hide *;
      UpperKeeps(name0);
      Bounds();
      var szBuf := UpperAll(name0);
      ghost var name, was := szBuf, vars;
      var namesize := |szBuf|;
      var pp;
      ghost var k;
      pp, k := SearchVar(szBuf);
      szBuf := szBuf + "=" + value;
      var size := |szBuf|;
      Without(name, k, pp >= 0);
      MapAfter(was, k, pp >= 0, name, value);
      if size == namesize + 1 {
        DeleteVar(pp, k);
        assert value == "";
        return true;
      }
      var oldsize := 0;
      if pp >= 0 {
        At(k);
        oldsize := StrLen(pp);
        oldsize := oldsize + 1;
      }
      if size < 128 - (envp - oldsize) - 1 - 2 {
        DeleteVar(pp, k);
        Bounds();
        Append(szBuf, Var(name, value));
        ok := true;
      } else {
        ok := false;
      }
    }

    /** The bytes that all variables but the one named `name` take. */
    ghost function LengthWithout(name: string): int
      reads this
    {
      envp - if name in AsMap(vars) then |name| + 1 + |AsMap(vars)[name]| + 1 else 0
    }

    lemma Without(name: string, k: nat, found: bool)
      requires Valid() && (if found then k < |vars| && vars[k].name == name else name !in AsMap(vars))
      ensures LengthWithout(name) == envp - if found then |Entry(vars[k])| + 1 else 0
      ensures found ==> LengthWithout(name) == |Flat(Removed(vars, k))|
    {
      Bounds();
      if found {
        MapValue(vars, k);
        FlatAt(vars, k);
      }
    }
  }

  /** What removing a name and giving it a value do to the map. */
  lemma MapAfter(vars: seq<Var>, k: nat, found: bool, name: string, value: string)
    requires VarsOk(vars) && (if found then k < |vars| && vars[k].name == name else name !in AsMap(vars))
    ensures var r := if found then Removed(vars, k) else vars;
            && VarsOk(r) && AsMap(r) == AsMap(vars) - {name} && name !in AsMap(r)
            && AsMap(r + [Var(name, value)]) == AsMap(vars)[name := value]
            && Entry(Var(name, value)) == name + "=" + value && |Flat(r)| <= |Flat(vars)|
            && (VarOk(Var(name, value)) <==> '=' !in name && '\0' !in name && '\0' !in value && value != "")
  {
    var r := if found then Removed(vars, k) else vars;
    if found {
      RemovedOk(vars, k);
      MapRemoved(vars, k);
      FlatAt(vars, k);
    }
    MapAppended(r, Var(name, value));
  }
}
