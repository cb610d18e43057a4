/** The converters of kernel/fatdir.c between names in a path and the eleven characters of a
    directory entry, and the walk of `dir_open` over the components of a path. */
module FcbNames {
  import opened PathNames
  import opened TrueNames
  import TrueNameSpec

  function Blanks(n: nat): (r: string)
    ensures |r| == n && forall k :: 0 <= k < n ==> r[k] == ' '
  {
    seq(n, _ => ' ')
  }

  function Padded(s: string, n: nat): (r: string)
    requires |s| <= n
    ensures |r| == n && r[..|s|] == s && forall k :: |s| <= k < n ==> r[k] == ' '
  {
    s + Blanks(n - |s|)
  }

  /** A name as a directory entry holds it. */
  function Fcb(c: string): (r: string)
    requires IsName83(c)
    ensures |r| == 11
  {
    Padded(Base(c), FNAME_SIZE) + Padded(Ext(c), FEXT_SIZE)
  }

  /** `s` without the blanks at its end. */
  function Trimmed(s: string): (r: string)
    ensures |r| <= |s| && r == s[..|r|] && (r != "" ==> r[|r| - 1] != ' ') && forall k :: |r| <= k < |s| ==> s[k] == ' '
  {
    if s == "" || s[|s| - 1] != ' ' then s else Trimmed(s[..|s| - 1])
  }

  /** A directory entry's name as a path holds it. */
  function NameSZ(f: string): string
    requires |f| == 11
  {
    var n, e := Trimmed(f[..FNAME_SIZE]), Trimmed(f[FNAME_SIZE..]);
    if f[0] == '.' || e == "" then n else n + "." + e
  }

  lemma TrimmedUnique(s: string, r: string)
    requires |r| <= |s| && r == s[..|r|] && (r != "" ==> r[|r| - 1] != ' ')
    requires forall k :: |r| <= k < |s| ==> s[k] == ' '
    ensures Trimmed(s) == r
  {
    var t := Trimmed(s);
    assert forall k :: 0 <= k < |r| ==> r[k] == s[k];
    assert forall k :: 0 <= k < |t| ==> t[k] == s[k];
  }

  predicate EndsInBlank(s: string) {
    s != "" && s[|s| - 1] == ' '
  }

  /** A name comes back from its directory entry just when neither of its parts ends in a blank. */
  lemma NameRoundTrip(c: string)
    requires IsName83(c)
    ensures NameSZ(Fcb(c)) == c <==> !EndsInBlank(Base(c)) && !EndsInBlank(Ext(c))
  {
    NameParts(c);
    NameConverts(c);
    var n, e, f := Base(c), Ext(c), Fcb(c);
    SizesAre83();
    assert f[..8] == Padded(n, 8) && f[8..] == Padded(e, 3) && f[0] == n[0];
    PaddedTrims(n, 8);
    PaddedTrims(e, 3);
    if Trimmed(n) != n || Trimmed(e) != e {
      PartsTrimmed(n, e, c);
    }
  }

  lemma SizesAre83()
    ensures FNAME_SIZE == 8 && FEXT_SIZE == 3
  {
  }

  lemma PaddedTrims(s: string, n: nat)
    requires |s| <= n
    ensures Trimmed(Padded(s, n)) == Trimmed(s) && (Trimmed(s) == s <==> !EndsInBlank(s))
  {
    var t, p := Trimmed(s), Padded(s, n);
    assert p[..|t|] == p[..|s|][..|t|] == t;
    forall k | |t| <= k < n ensures p[k] == ' ' {
      if k < |s| {
        assert p[k] == p[..|s|][k] == s[k];
      }
    }
    TrimmedUnique(p, t);
    if !EndsInBlank(s) {
      TrimmedUnique(s, s);
    }
  }

  /** A part that lost its blanks makes another name. */
  lemma PartsTrimmed(n: string, e: string, c: string)
    requires c == (if e == "" then n else n + "." + e) && (Trimmed(n) != n || Trimmed(e) != e)
    ensures c != if Trimmed(e) == "" then Trimmed(n) else Trimmed(n) + "." + Trimmed(e)
  {
    assert Trimmed(n) == n || |Trimmed(n)| < |n|;
    assert Trimmed(e) == e || |Trimmed(e)| < |e|;
  }

  /** An entry's name comes back from a path when it has no dot and does not begin with a blank. */
  lemma EntryRoundTrip(f: string)
    requires |f| == 11 && '.' !in f && f[0] != ' '
    requires forall k :: 0 <= k < 11 ==> DirChar(f[k]) && f[k] != '*' && !Sep(f[k])
    ensures IsName83(NameSZ(f)) && Fcb(NameSZ(f)) == f
  {
    SizesAre83();
    var n, e := Trimmed(f[..8]), Trimmed(f[8..]);
    var c := NameSZ(f);
    assert f[..8][0] == f[0];
    assert forall k :: 0 <= k < |n| ==> n[k] == f[k];
    assert forall k :: 0 <= k < |e| ==> e[k] == f[8 + k];
    assert c == if e == "" then n else n + "." + e;
    assert Padded(n, 8) == f[..8] && Padded(e, 3) == f[8..] && f == f[..8] + f[8..];
    hide Trimmed, Base, Ext, IsName83, HasSep, Padded, DirChar, Sep;
    NameWhole(n, e, c);
    ExtOf(n, e);
  }

  /** `ConvertNameSZToName83`: the component at `k0` of a path into the fields of an entry. */
  method ConvertNameSZToName83(fcbname: array<char>, path: string, k0: nat, ghost c: string) returns (k: nat)
    requires fcbname.Length == 11 && k0 + |c| <= |path| && path[k0..k0 + |c|] == c && IsName83(c)
    requires NoZeros(path) && (k0 + |c| == |path| || path[k0 + |c|] == '\\')
    modifies fcbname
    ensures k == k0 + |c| && fcbname[..] == Fcb(c)
  {
    hide *;
    SizesAre83();
    ghost var n, e, f := Base(c), Ext(c), Fcb(c);
    FcbAt(c);
    EmptyStart(n, e);
    Blank(fcbname);
    FilledStart(fcbname[..], f);
    k := k0;
    var i: nat := 0;
    ghost var at: nat := 0;
    while i < 11
      invariant i <= 11 && at <= |c| && k == k0 + at && i == Column(n, e, at) && Filled(fcbname[..], f, i)
      decreases |c| - at
    {
      var ch := CharAt(path, k);
      CharIs(path, k0, c, at);
      if ch == '.' {
        DotAt(n, e, c, at, f, fcbname[..], i);
        i := FNAME_SIZE - 1;
      } else if ch != '\0' && ch != '\\' {
        LetterAt(n, e, c, at, f, fcbname[..]);
        PutAt(fcbname, i, ch);
      } else {
        break;
      }
      i := i + 1;
      k, at := k + 1, at + 1;
    }
    EndAt(n, e, c, at, i, f, fcbname[..]);
  }

  method Blank(fcbname: array<char>)
    modifies fcbname
    ensures forall j :: 0 <= j < fcbname.Length ==> fcbname[..][j] == ' '
  {
    forall i | 0 <= i < fcbname.Length {
      fcbname[i] := ' ';
    }
  }

  method PutAt(a: array<char>, i: nat, ch: char)
    requires i < a.Length
    modifies a
    ensures a[..] == old(a[..])[i := ch]
  {
    a[i] := ch;
  }

  /** The fields are right before column `i`, and blank from there on. */
  ghost predicate Filled(fcb: string, f: string, i: int) {
    |fcb| == |f| == 11 && forall j :: 0 <= j < 11 ==> fcb[j] == if j < i then f[j] else ' '
  }

  lemma FilledStart(fcb: string, f: string)
    requires |fcb| == |f| == 11 && forall j :: 0 <= j < |fcb| ==> fcb[j] == ' '
    ensures Filled(fcb, f, 0)
  {
  }

  lemma EmptyStart(n: string, e: string)
    ensures Column(n, e, 0) == 0
  {
  }

  /** The column of the entry that the character `at` of a name goes to. */
  function Column(n: string, e: string, at: nat): nat {
    if at <= |n| then at else 8 + (at - |n| - 1)
  }

  lemma FcbAt(c: string)
    requires IsName83(c)
    ensures Fields(Base(c), Ext(c), c, Fcb(c))
  {
    NameParts(c);
    var n, e, f := Base(c), Ext(c), Fcb(c);
    var pn, pe := Padded(n, 8), Padded(e, 3);
    assert f == pn + pe;
    forall j | 0 <= j < 11 ensures f[j] == if j < |n| then n[j] else if 8 <= j < 8 + |e| then e[j - 8] else ' ' {
      if j < |n| {
        assert pn[j] == pn[..|n|][j];
      } else if 8 <= j < 8 + |e| {
        assert pe[j - 8] == pe[..|e|][j - 8];
      }
    }
  }

  lemma CharIs(path: string, k0: nat, c: string, at: nat)
    requires k0 + |c| <= |path| && path[k0..k0 + |c|] == c && at <= |c| && NoZeros(path) && IsName83(c)
    requires k0 + |c| == |path| || path[k0 + |c|] == '\\'
    ensures at < |c| ==> CharAt(path, k0 + at) == c[at] && c[at] != '\0' && c[at] != '\\'
    ensures at == |c| ==> CharAt(path, k0 + at) == '\0' || CharAt(path, k0 + at) == '\\'
  {
    hide *;
    NameParts(c);
    ZeroAtEnd(path, k0 + at);
    CharAtIs(path, k0 + at);
    if at < |c| {
      assert path[k0 + at] == path[k0..k0 + |c|][at] == c[at] && c[at] in c;
      NotSep(c[at]);
    }
  }

  /** What the fields of an entry hold. */
  ghost predicate Fields(n: string, e: string, c: string, f: string) {
    && c == (if e == "" then n else n + "." + e) && |n| <= 8 && |e| <= 3 && |f| == 11 && '.' !in n && '.' !in e
    && forall j :: 0 <= j < 11 ==> f[j] == if j < |n| then n[j] else if 8 <= j < 8 + |e| then e[j - 8] else ' '
  }

  lemma PartAt(n: string, e: string, c: string, at: nat, f: string)
    requires Fields(n, e, c, f) && at < |c|
    ensures at < |n| ==> c[at] == n[at] && c[at] in n
    ensures at == |n| ==> c[at] == '.' && e != ""
    ensures at > |n| ==> c[at] == e[at - |n| - 1] && c[at] in e
  {
  }

  lemma DotAt(n: string, e: string, c: string, at: nat, f: string, fcb: string, i: nat)
    requires Fields(n, e, c, f) && at < |c| && c[at] == '.' && i == Column(n, e, at) && Filled(fcb, f, i)
    ensures Column(n, e, at + 1) == 8 && Filled(fcb, f, 8)
  {
    PartAt(n, e, c, at, f);
  }

  lemma LetterAt(n: string, e: string, c: string, at: nat, f: string, fcb: string)
    requires Fields(n, e, c, f) && at < |c| && c[at] != '.' && Filled(fcb, f, Column(n, e, at))
    ensures var i := Column(n, e, at);
            i < 11 && |fcb| == 11 && Column(n, e, at + 1) == i + 1 && Filled(fcb[i := c[at]], f, i + 1)
  {
    PartAt(n, e, c, at, f);
  }

  lemma EndAt(n: string, e: string, c: string, at: nat, i: nat, f: string, fcb: string)
    requires Fields(n, e, c, f) && at <= |c| && i == Column(n, e, at) && Filled(fcb, f, i) && (at == |c| || i >= 11)
    ensures at == |c| && fcb == f
  {
  }

  /** Back over the blanks at the end of a field. */
  method BackOver(s: string) returns (loop: int)
    ensures -1 <= loop < |s| && Trimmed(s) == s[..loop + 1]
  {
    loop := |s| - 1;
    while loop >= 0 && s[loop] == ' '
      invariant -1 <= loop < |s| && forall k :: loop < k < |s| ==> s[k] == ' '
    {
      loop := loop - 1;
    }
    TrimmedUnique(s, s[..loop + 1]);
  }

  /** `fmemcpy`. */
  method CopyTo(dest: array<char>, at: nat, s: string)
    requires at + |s| <= dest.Length
    modifies dest
    ensures dest[..at + |s|] == old(dest[..at]) + s
  {
    forall k | 0 <= k < |s| {
      dest[at + k] := s[k];
    }
  }

  /** `ConvertName83ToNameSZ`. */
  method ConvertName83ToNameSZ(destSZ: array<char>, srcFCBName: string) returns (n: nat)
    requires |srcFCBName| == 11 && destSZ.Length >= 13
    modifies destSZ
    ensures n < destSZ.Length && destSZ[..n] == NameSZ(srcFCBName) && destSZ[n] == '\0'
  {
    hide *;
    SizesAre83();
    NameSZIs(srcFCBName);
    var noExtension := srcFCBName[0] == '.';
    ghost var base := srcFCBName[..FNAME_SIZE];
    CopyTo(destSZ, 0, srcFCBName[..FNAME_SIZE]);
    var loop := BackOver(srcFCBName[..FNAME_SIZE]);
    n := loop + 1;
    ghost var name := Trimmed(base);
    FrontOf(destSZ[..], base, n);
    if !noExtension {
      var ext := srcFCBName[FNAME_SIZE..];
      loop := BackOver(ext);
      if loop >= 0 {
        CopyTo(destSZ, n, ".");
        CopyTo(destSZ, n + 1, ext[..loop + 1]);
        n := n + 1 + loop + 1;
        name := name + "." + Trimmed(ext);
      }
    }
    assert destSZ[..n] == name;
    destSZ[n] := '\0';
    assert destSZ[..n] == name;
  }

  lemma FrontOf(buf: string, base: string, n: nat)
    requires n <= |base| <= |buf| && buf[..|base|] == [] + base
    ensures buf[..n] == base[..n]
  {
    assert buf[..n] == buf[..|base|][..n];
  }

  lemma NameSZIs(f: string)
    requires |f| == 11
    ensures var n, e := Trimmed(f[..8]), Trimmed(f[8..]);
            |n| <= 8 && |e| <= 3 && NameSZ(f) == if f[0] == '.' || e == "" then n else n + "." + e
  {
    SizesAre83();
  }

  /** The entries' names of the components of a path. */
  function FcbAll(dirs: seq<string>): (r: seq<string>)
    requires forall d :: d in dirs ==> IsName83(d)
    ensures |r| == |dirs| && forall i :: 0 <= i < |dirs| ==> r[i] == Fcb(dirs[i])
  {
    seq(|dirs|, i requires 0 <= i < |dirs| => Fcb(dirs[i]))
  }

  /** What follows the last component. */
  function Behind(dirs: seq<string>, trailing: bool): string {
    if dirs == [] || trailing then "\\" else ""
  }

  /** How many components are looked up in their directories: not the last when it is split off. */
  function LookedUp(dirs: seq<string>, trailing: bool, split: bool): nat {
    if split && !trailing && dirs != [] then |dirs| - 1 else |dirs|
  }

  /** The directories of a drive: the one that an entry of another, with a name of eleven characters, stands for.
      Files, volume labels and names that are not there have none. */
  type Tree = map<(nat, string), nat>

  const ROOT: nat := 0

  datatype Walk = Lost | At(directory: nat)

  /** The directory that a list of names leads to. */
  function Descend(tree: Tree, from: nat, names: seq<string>): Walk
    decreases |names|
  {
    if names == [] then At(from)
    else if (from, names[0]) in tree then Descend(tree, tree[(from, names[0])], names[1..])
    else Lost
  }

  /** One name more; after one that is not there, nothing is. */
  lemma {:induction false} DescendPush(tree: Tree, from: nat, names: seq<string>, n: string)
    ensures Descend(tree, from, names + [n]) ==
            match Descend(tree, from, names)
            case Lost => Lost
            case At(d) => if (d, n) in tree then At(tree[(d, n)]) else Lost
    decreases |names|
  {
    if names == [] {
      assert [] + [n] == [n] && [n][1..] == [];
    } else {
      assert (names + [n])[0] == names[0] && (names + [n])[1..] == names[1..] + [n];
      if (from, names[0]) in tree {
        DescendPush(tree, tree[(from, names[0])], names[1..], n);
      }
    }
  }

  lemma {:induction false} LostStays(tree: Tree, from: nat, names: seq<string>, k: nat)
    requires k <= |names| && Descend(tree, from, names[..k]) == Lost
    ensures Descend(tree, from, names) == Lost
    decreases |names| - k
  {
    if k < |names| {
      assert names[..k + 1] == names[..k] + [names[k]];
      DescendPush(tree, from, names[..k], names[k]);
      LostStays(tree, from, names, k + 1);
    } else {
      assert names[..k] == names;
    }
  }

  /** The walk of `dir_open` over a full path: it ends in the directory that the components lead to, from the root on,
      or at the first one that is not there. `names` are the entries looked for, one directory after the other,
      `fcbname` the name pattern left behind. */
  method DirOpen(path: string, split: bool, fcbname: array<char>, tree: Tree, ghost dirs: seq<string>,
                 ghost trailing: bool)
      returns (r: Walk, names: seq<string>)
    requires fcbname.Length == 11 && |path| > 2 && NoZeros(path) && path[2..] == Text(dirs, trailing)
    requires forall d :: d in dirs ==> IsName83(d)
    modifies fcbname
    ensures r == Descend(tree, 0, FcbAll(dirs)[..LookedUp(dirs, trailing, split)])
    ensures r.At? ==> names == FcbAll(dirs)[..LookedUp(dirs, trailing, split)]
    ensures r.At? && dirs != [] ==> fcbname[..] == Fcb(dirs[|dirs| - 1])
    ensures r.Lost? ==> 0 < |names| <= LookedUp(dirs, trailing, split) && names == FcbAll(dirs)[..|names|]
                        && fcbname[..] == names[|names| - 1] && Descend(tree, 0, names[..|names| - 1]).At?
  {
    hide *;
    PathParts(path, dirs, trailing);
    names := [];
    ghost var i := 0;
    var k := 2;
    var at := ROOT;
    NoneLookedUp(dirs);
    DescendNone(tree);
    while CharAt(path, k) != '\0'
      invariant 0 <= i <= |dirs| && i == |names| && names == FcbAll(dirs)[..i] && 2 <= k <= |path|
      invariant path[k..] == TrueNameSpec.FromLeft(dirs[i..]) + Behind(dirs, trailing)
      invariant i > 0 ==> fcbname[..] == Fcb(dirs[i - 1])
      invariant split ==> CharAt(path, k) != '\0'
      invariant Descend(tree, ROOT, names) == At(at)
      decreases |path| - k
    {
      LookedUpIs(dirs, trailing, split);
      PartsAt(path, k, dirs, trailing, i);
      k := k + 1;
      if CharAt(path, k) == '\0' {
        return At(at), names;
      }
      k := ConvertNameSZToName83(fcbname, path, k, dirs[i]);
      OneMore(dirs, i);
      EndsHere(path, k, dirs, trailing, i + 1);
      if split && CharAt(path, k) == '\0' {
        return At(at), names;
      }
      ghost var before := names;
      names := names + [fcbname[..]];
      DescendPush(tree, ROOT, before, fcbname[..]);
      i := i + 1;
      if (at, fcbname[..]) !in tree {
        LookedUpMore(dirs, trailing, split, i, path, k);
        LostAlready(tree, dirs, LookedUp(dirs, trailing, split), i);
        Front(before, fcbname[..]);
        return Lost, names;
      }
      at := tree[(at, fcbname[..])];
    }
    LookedUpIs(dirs, trailing, split);
    EndsAt(path, k, dirs, trailing, i);
    r := At(at);
  }

  lemma DescendNone(tree: Tree)
    ensures Descend(tree, ROOT, []) == At(ROOT) && ROOT == 0
  {
  }

  lemma Front(s: seq<string>, n: string)
    ensures (s + [n])[..|s + [n]| - 1] == s && (s + [n])[|s + [n]| - 1] == n
  {
  }

  /** A component that is looked up is one of those to be looked up. */
  lemma LookedUpMore(dirs: seq<string>, trailing: bool, split: bool, i: nat, path: string, k: nat)
    requires 0 < i <= |dirs| && (split ==> CharAt(path, k) != '\0')
    requires CharAt(path, k) == '\0' <==> i == |dirs| && !trailing
    ensures i <= LookedUp(dirs, trailing, split)
  {
  }

  lemma LostAlready(tree: Tree, dirs: seq<string>, n: nat, i: nat)
    requires (forall d :: d in dirs ==> IsName83(d)) && i <= n <= |dirs|
    requires |FcbAll(dirs)| == |dirs| && Descend(tree, ROOT, FcbAll(dirs)[..i]) == Lost
    ensures Descend(tree, ROOT, FcbAll(dirs)[..n]) == Lost
  {
    assert FcbAll(dirs)[..n][..i] == FcbAll(dirs)[..i];
    LostStays(tree, ROOT, FcbAll(dirs)[..n], i);
  }

  lemma NoneLookedUp(dirs: seq<string>)
    requires forall d :: d in dirs ==> IsName83(d)
    ensures FcbAll(dirs)[..0] == []
  {
  }

  lemma OneMore(dirs: seq<string>, i: nat)
    requires (forall d :: d in dirs ==> IsName83(d)) && i < |dirs|
    ensures dirs[i] in dirs && FcbAll(dirs)[..i + 1] == FcbAll(dirs)[..i] + [Fcb(dirs[i])]
  {
  }

  lemma LookedUpIs(dirs: seq<string>, trailing: bool, split: bool)
    ensures LookedUp(dirs, trailing, split) == if split && !trailing && dirs != [] then |dirs| - 1 else |dirs|
  {
  }

  lemma PathParts(path: string, dirs: seq<string>, trailing: bool)
    requires |path| > 2 && path[2..] == Text(dirs, trailing) && NoZeros(path)
    ensures CharAt(path, 2) != '\0'
    ensures path[2..] == TrueNameSpec.FromLeft(dirs[0..]) + Behind(dirs, trailing)
  {
    assert dirs[0..] == dirs;
    ZeroAtEnd(path, 2);
    TrueNameSpec.FromLeftIs(dirs);
    if dirs == [] {
      assert TrueNameSpec.FromLeft(dirs) == "";
    }
  }

  /** The separator before a component, and the component. */
  lemma PartsAt(path: string, k: nat, dirs: seq<string>, trailing: bool, i: nat)
    requires k <= |path| && i <= |dirs| && NoZeros(path) && CharAt(path, k) != '\0'
    requires forall d :: d in dirs ==> IsName83(d)
    requires path[k..] == TrueNameSpec.FromLeft(dirs[i..]) + Behind(dirs, trailing)
    ensures k < |path| && (CharAt(path, k + 1) == '\0' <==> i == |dirs|) && (i == |dirs| ==> dirs == [] || trailing)
    ensures i < |dirs| ==>
              var c, hi := dirs[i], k + 1 + |dirs[i]|;
              && c in dirs && hi <= |path| && path[k + 1..hi] == c && (hi == |path| || path[hi] == '\\')
              && path[hi..] == TrueNameSpec.FromLeft(dirs[i + 1..]) + Behind(dirs, trailing)
  {
    hide *;
    ZeroAtEnd(path, k);
    ZeroAtEnd(path, k + 1);
    if i < |dirs| {
      var c, tail := dirs[i], TrueNameSpec.FromLeft(dirs[i + 1..]) + Behind(dirs, trailing);
      FirstFromLeft(dirs, i, Behind(dirs, trailing));
      TailStarts(dirs, trailing, i + 1);
      NameParts(c);
      FrontAndTail(path, k, c, tail);
    } else {
      LastPart(path, k, dirs, trailing);
    }
  }

  lemma FirstFromLeft(dirs: seq<string>, i: nat, behind: string)
    requires i < |dirs|
    ensures TrueNameSpec.FromLeft(dirs[i..]) + behind ==
            "\\" + dirs[i] + (TrueNameSpec.FromLeft(dirs[i + 1..]) + behind)
    ensures dirs[i] in dirs
  {
    assert dirs[i..][0] == dirs[i] && dirs[i..][1..] == dirs[i + 1..];
  }

  lemma LastPart(path: string, k: nat, dirs: seq<string>, trailing: bool)
    requires k < |path| && path[k..] == TrueNameSpec.FromLeft(dirs[|dirs|..]) + Behind(dirs, trailing)
    ensures k + 1 == |path| && (dirs == [] || trailing)
  {
    EmptyFromLeft(dirs[|dirs|..]);
  }

  lemma FrontAndTail(path: string, k: nat, c: string, tail: string)
    requires k <= |path| && path[k..] == "\\" + c + tail && (tail == "" || tail[0] == '\\')
    ensures var hi := k + 1 + |c|;
            hi <= |path| && path[k + 1..hi] == c && (hi == |path| || path[hi] == '\\') && path[hi..] == tail
  {
    var rest, hi := path[k..], k + 1 + |c|;
    assert path[hi..] == rest[1 + |c|..] == tail;
    assert path[k + 1..hi] == rest[1..1 + |c|] == c;
    assert hi < |path| ==> path[hi] == path[hi..][0];
  }

  lemma TailStarts(dirs: seq<string>, trailing: bool, i: nat)
    requires i <= |dirs|
    ensures var tail := TrueNameSpec.FromLeft(dirs[i..]) + Behind(dirs, trailing);
            tail == "" || tail[0] == '\\'
  {
  }

  /** The path ends here just when this was the last component and no separator follows. */
  lemma EndsHere(path: string, k: nat, dirs: seq<string>, trailing: bool, i: nat)
    requires k <= |path| && 0 < i <= |dirs| && NoZeros(path)
    requires path[k..] == TrueNameSpec.FromLeft(dirs[i..]) + Behind(dirs, trailing)
    ensures CharAt(path, k) == '\0' <==> i == |dirs| && !trailing
  {
    assert k < |path| ==> path[k] in path;
    if i < |dirs| {
      assert TrueNameSpec.FromLeft(dirs[i..])[0] == '\\';
    } else {
      assert TrueNameSpec.FromLeft(dirs[i..]) == "";
    }
  }

  lemma EndsAt(path: string, k: nat, dirs: seq<string>, trailing: bool, i: nat)
    requires k <= |path| && i <= |dirs| && NoZeros(path) && CharAt(path, k) == '\0'
    requires path[k..] == TrueNameSpec.FromLeft(dirs[i..]) + Behind(dirs, trailing)
    ensures i == |dirs|
  {
    ZeroAtEnd(path, k);
    EmptyFromLeft(dirs[i..]);
    assert dirs[i..] == [] <==> i == |dirs|;
  }

  lemma NotSep(x: char)
    requires !Sep(x)
    ensures x != '\\'
  {
  }

  lemma CharAtIs(path: string, k: nat)
    ensures k < |path| ==> CharAt(path, k) == path[k]
  {
  }

  lemma ZeroAtEnd(path: string, k: nat)
    requires NoZeros(path)
    ensures CharAt(path, k) == '\0' <==> k >= |path|
  {
    if k < |path| {
      assert path[k] in path;
    }
  }

  lemma EmptyFromLeft(dirs: seq<string>)
    ensures TrueNameSpec.FromLeft(dirs) == "" <==> dirs == []
  {
  }

  lemma {:induction false} RenderNoZeros(dirs: seq<string>)
    requires forall d :: d in dirs ==> IsName83(d)
    ensures NoZeros(Render(dirs))
  {
    if dirs != [] {
      var init, last := dirs[..|dirs| - 1], dirs[|dirs| - 1];
      assert last in dirs;
      NameParts(last);
      RenderNoZeros(init);
      hide IsName83, Base, Ext, HasSep;
    }
  }

  /** `dir_open` takes every path that `truename` gives apart into the directories it was made of. */
  lemma FullPathOpens(src: string, drives: TrueNameSpec.Drives, defaultDrive: int, up: char -> char, allowWild: bool)
      returns (dirs: seq<string>, trailing: bool)
    requires TrueNameSpec.DrivesOk(drives) && UpcaseOk(up)
    requires TrueNameSpec.TrueName(src, drives, defaultDrive, up, allowWild).Full?
    ensures var path := TrueNameSpec.TrueName(src, drives, defaultDrive, up, allowWild).path;
            && |path| > 2 && NoZeros(path) && path[2..] == Text(dirs, trailing) && forall d :: d in dirs ==> IsName83(d)
  {
    dirs, trailing := TrueNameSpec.FullIsCanonical(src, drives, defaultDrive, up, allowWild);
    RenderNoZeros(dirs);
    TrueNameSpec.TextLength(dirs, trailing);
    var path := TrueNameSpec.TrueName(src, drives, defaultDrive, up, allowWild).path;
    assert path == path[..2] + Text(dirs, trailing);
  }
}
