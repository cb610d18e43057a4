/** File names and paths as kernel/newstuff.c and kernel/fatdir.c understand them: 8.3 names,
    and paths resolved component by component on a stack. */
module PathNames {
  import opened ErrorCodes

  const FNAME_SIZE: nat := 8
  const FEXT_SIZE: nat := 3
  /** The longest path, without its terminator. */
  const SFTMAX: nat := 128

  predicate Sep(c: char) {
    c == '/' || c == '\\'
  }

  /** A character that a name may have; the wildcard '?' and the dot are among them. */
  predicate DirChar(c: char) {
    c >= ' ' && c !in "\"[]:|<>+=;,"
  }

  predicate HasSep(s: string) {
    exists i :: 0 <= i < |s| && Sep(s[i])
  }

  /** The error for a bad path of which `s` is still to be read. */
  function PathError(s: string): (e: int)
    ensures e < 0
  {
    if HasSep(s) then DE_PATHNOTFND else DE_FILENOTFND
  }

  /** What is before and what is behind the first dot. */
  function Base(s: string): (r: string)
    ensures |r| <= |s| && s[..|r|] == r && '.' !in r && (|r| < |s| ==> s[|r|] == '.')
  {
    if s == "" || s[0] == '.' then "" else [s[0]] + Base(s[1..])
  }

  function Ext(s: string): string {
    if |Base(s)| < |s| then s[|Base(s)| + 1..] else ""
  }

  function Marks(n: nat): (r: string)
    ensures |r| == n && forall k :: 0 <= k < n ==> r[k] == '?'
  {
    seq(n, _ => '?')
  }

  /** A name or an extension cut to `i` characters, a star standing for all that remain. */
  function Field(s: string, i: nat): (r: string)
    ensures |r| <= i && '*' !in r
    ensures i > 0 && s != "" ==> r != ""
  {
    if s == "" then ""
    else if s[0] == '*' then Marks(i) + Field(s[1..], 0)
    else if i > 0 then [s[0]] + Field(s[1..], i - 1)
    else Field(s[1..], 0)
  }

  /** The characters that are not cut off are allowed ones. */
  predicate FieldOk(s: string, i: nat) {
    s == ""
    || (if s[0] == '*' then FieldOk(s[1..], 0)
        else (i > 0 ==> DirChar(s[0])) && FieldOk(s[1..], if i > 0 then i - 1 else 0))
  }

  datatype Converted = Bad | Name(text: string, wild: bool)

  predicate Wild(s: string) {
    '*' in s || '?' in s
  }

  /** A component as an 8.3 name. */
  function Convert83(s: string): Converted {
    var n, e := Base(s), Ext(s);
    if !FieldOk(n, FNAME_SIZE) || '.' in e || !FieldOk(e, FEXT_SIZE) then Bad
    else Name(Field(n, FNAME_SIZE) + if e == "" then "" else "." + Field(e, FEXT_SIZE), Wild(s))
  }

  /** A name of one to eight characters, with an extension of one to three or none. */
  predicate IsName83(c: string) {
    var n, e := Base(c), Ext(c);
    && 1 <= |n| <= FNAME_SIZE && |e| <= FEXT_SIZE && '.' !in e && ('.' in c ==> e != "")
    && '*' !in c && !HasSep(c) && forall i :: 0 <= i < |c| ==> DirChar(c[i])
  }

  /** The components of a path, each with a backslash before it. */
  function Render(dirs: seq<string>): string {
    if dirs == [] then "" else Render(dirs[..|dirs| - 1]) + "\\" + dirs[|dirs| - 1]
  }

  datatype Resolved = Fail(error: int) | Path(dirs: seq<string>, trailing: bool)

  function SkipSeps(s: string): (r: string)
    ensures |r| <= |s| && (r == "" || !Sep(r[0]))
  {
    if s != "" && Sep(s[0]) then SkipSeps(s[1..]) else s
  }

  /** The component at the front. */
  function Segment(s: string): (r: string)
    ensures |r| <= |s| && !HasSep(r) && (s != "" && !Sep(s[0]) ==> r != "")
  {
    if s == "" || Sep(s[0]) then "" else [s[0]] + Segment(s[1..])
  }

  lemma SegmentStep(s: string)
    ensures s == "" || Sep(s[0]) ==> Segment(s) == ""
    ensures s != "" && !Sep(s[0]) ==> Segment(s) == [s[0]] + Segment(s[1..])
  {
  }

  /** The rest of a string from `k` on, and a piece of it. */
  lemma SliceHead(s: string, k: nat, hi: nat)
    requires k < hi <= |s|
    ensures s[k..][0] == s[k] && s[k..][1..] == s[k + 1..] && s[k..] != [] && s[k..hi] == [s[k]] + s[k + 1..hi]
  {
  }

  lemma SliceTail(s: string, k: nat, hi: nat)
    requires k <= hi <= |s|
    ensures |s[k..hi]| == hi - k && s[k..][hi - k..] == s[hi..] && s[k..][..hi - k] == s[k..hi]
    ensures k == |s| ==> s[k..] == ""
    ensures k < |s| ==> s[k..] != "" && s[k..][0] == s[k]
  {
  }

  /** A path resolved from the directory `dirs` on: empty components and "." are passed over, ".." goes up and
      fails at the root, anything else is cut to 8.3 and appended; wildcards can only be in the last component.
      A path that ends in a separator after a component keeps one. */
  function Resolve(dirs: seq<string>, s: string, wild: bool, allowWild: bool): Resolved
    decreases |s|
  {
    if s == "" then (if wild && !allowWild then Fail(DE_PATHNOTFND) else Path(dirs, false))
    else if wild then Fail(DE_PATHNOTFND)
    else if 2 + |Render(dirs)| >= SFTMAX then Fail(PathError(s))
    else
      var t := SkipSeps(s);
      var c := Segment(t);
      var rest := t[|c|..];
      if c == "" then Path(dirs, true)
      else if c == "." then Resolve(dirs, rest, false, allowWild)
      else if c == ".." then (if dirs == [] then Fail(DE_PATHNOTFND)
                              else Resolve(dirs[..|dirs| - 1], rest, false, allowWild))
      else if c[0] == '.' || Convert83(c) == Bad then Fail(PathError(rest))
      else
        var name := Convert83(c);
        if 2 + |Render(dirs + [name.text])| > SFTMAX then Fail(PathError(rest))
        else Resolve(dirs + [name.text], rest, name.wild, allowWild)
  }

  /** The text of a resolved path behind the drive. */
  function Text(dirs: seq<string>, trailing: bool): string {
    if dirs == [] then "\\" else Render(dirs) + if trailing then "\\" else ""
  }

  /** The table that turns file names into upper case. */
  ghost predicate UpcaseOk(up: char -> char) {
    && (forall c :: up(up(c)) == up(c))
    && (forall c :: 'A' <= c <= 'Z' || c == '/' || c == '\\' || c == '.' || c == '?' || c == '*' || c == ':' ==>
          up(c) == c)
    && (forall c :: !('A' <= c <= 'Z') ==>
          (Sep(up(c)) ==> Sep(c)) && (up(c) == '.' ==> c == '.') && (up(c) == '?' ==> c == '?')
          && (up(c) == '*' ==> c == '*'))
    && (forall c :: DirChar(c) ==> DirChar(up(c)))
  }

  function Upcased(up: char -> char, s: string): (r: string)
    ensures |r| == |s| && forall i :: 0 <= i < |s| ==> r[i] == up(s[i])
  {
    seq(|s|, i requires 0 <= i < |s| => up(s[i]))
  }

  function UpcasedAll(up: char -> char, dirs: seq<string>): (r: seq<string>)
    ensures |r| == |dirs| && forall i :: 0 <= i < |dirs| ==> r[i] == Upcased(up, dirs[i])
  {
    seq(|dirs|, i requires 0 <= i < |dirs| => Upcased(up, dirs[i]))
  }

  ghost predicate AllNames(dirs: seq<string>) {
    forall d :: d in dirs ==> IsName83(d)
  }

  // What conversion to 8.3 gives.

  lemma {:induction false} FieldChars(s: string, i: nat)
    requires FieldOk(s, i)
    ensures forall c :: c in Field(s, i) ==> (c == '?' || c in s) && DirChar(c)
  {
    if s != "" {
      if s[0] == '*' {
        FieldChars(s[1..], 0);
      } else {
        FieldChars(s[1..], if i > 0 then i - 1 else 0);
      }
    }
  }

  /** A field that is short enough and has no star is kept as it is. */
  lemma {:induction false} FieldSame(s: string, i: nat)
    requires |s| <= i && '*' !in s && forall k :: 0 <= k < |s| ==> DirChar(s[k])
    ensures Field(s, i) == s && FieldOk(s, i)
  {
    if s != "" {
      assert forall k :: 0 <= k < |s[1..]| ==> s[1..][k] == s[k + 1];
      FieldSame(s[1..], i - 1);
      assert s == [s[0]] + s[1..];
    }
  }

  /** A text without dots, alone or before one. */
  lemma {:induction false} BaseOf(n: string, e: string)
    requires '.' !in n
    ensures Base(n) == n && Base(n + "." + e) == n
  {
    if n != "" {
      BaseOf(n[1..], e);
      assert (n + "." + e)[1..] == n[1..] + "." + e;
      assert n == [n[0]] + n[1..];
    }
  }

  lemma ExtOf(n: string, e: string)
    requires '.' !in n
    ensures Base(n) == n && Ext(n) == ""
    ensures Base(n + "." + e) == n && Ext(n + "." + e) == e
  {
    BaseOf(n, e);
    assert (n + "." + e)[|n| + 1..] == e;
  }

  lemma NoSepParts(s: string)
    ensures !HasSep(s) <==> forall c :: c in s ==> !Sep(c)
  {
    if !HasSep(s) {
      forall c | c in s ensures !Sep(c) {
        var i :| 0 <= i < |s| && s[i] == c;
      }
    }
  }

  lemma PartsIn(s: string)
    ensures forall c :: c in Base(s) || c in Ext(s) ==> c in s
    ensures '.' in s <==> |Base(s)| < |s|
  {
    var n, e := Base(s), Ext(s);
    assert e == if |n| < |s| then s[|n| + 1..] else "";
    hide *;
    assert n == s[..|n|];
    SliceIn(s, 0, |n|);
    if |n| < |s| {
      SliceIn(s, |n| + 1, |s|);
      assert s[|n|] == '.';
    } else {
      assert n == s;
    }
  }

  lemma SliceIn(s: string, i: nat, j: nat)
    requires i <= j <= |s|
    ensures forall c :: c in s[i..j] ==> c in s
    ensures j == |s| ==> s[i..] == s[i..j]
    ensures i == 0 ==> s[..j] == s[i..j]
  {
  }

  /** A name put together from its parts. */
  lemma NameWhole(n: string, e: string, c: string)
    requires 1 <= |n| <= FNAME_SIZE && |e| <= FEXT_SIZE && '.' !in n && '.' !in e
    requires c == if e == "" then n else n + "." + e
    requires forall x :: x in n || x in e ==> DirChar(x) && x != '*' && !Sep(x)
    ensures IsName83(c)
  {
    hide DirChar, Sep;
    ExtOf(n, e);
    NoSepParts(c);
    DotAllowed();
    forall x | x in c ensures DirChar(x) && x != '*' && !Sep(x) {
      assert x in n || x in e || x == '.';
    }
    forall i | 0 <= i < |c| ensures DirChar(c[i]) {
      assert c[i] in c;
    }
  }

  lemma DotAllowed()
    ensures DirChar('.') && !Sep('.') && DirChar('?') && !Sep('?')
  {
  }

  /** The parts of a name. */
  lemma NameParts(c: string)
    requires IsName83(c)
    ensures 1 <= |Base(c)| <= FNAME_SIZE && |Ext(c)| <= FEXT_SIZE && '.' !in Base(c) && '.' !in Ext(c)
    ensures c == (if Ext(c) == "" then Base(c) else Base(c) + "." + Ext(c)) && !HasSep(c) && c != ""
    ensures c[0] == Base(c)[0]
    ensures forall x :: x in c ==> DirChar(x) && x != '*' && !Sep(x)
    ensures '*' !in c && (forall k :: 0 <= k < |Base(c)| ==> DirChar(Base(c)[k]))
    ensures (forall k :: 0 <= k < |Ext(c)| ==> DirChar(Ext(c)[k]))
    ensures '*' !in Base(c) && '*' !in Ext(c)
  {
    hide *;
    NameShape(c);
    NameLetters(c);
    PartsIn(c);
    NoSepParts(c);
    forall k | 0 <= k < |Base(c)| ensures DirChar(Base(c)[k]) {
      assert Base(c)[k] in c;
    }
    forall k | 0 <= k < |Ext(c)| ensures DirChar(Ext(c)[k]) {
      assert Ext(c)[k] in c;
    }
  }

  lemma NameShape(c: string)
    requires IsName83(c)
    ensures 1 <= |Base(c)| <= FNAME_SIZE && |Ext(c)| <= FEXT_SIZE && '.' !in Ext(c)
    ensures c == (if Ext(c) == "" then Base(c) else Base(c) + "." + Ext(c)) && c != "" && c[0] == Base(c)[0]
  {
    hide DirChar, Sep, HasSep;
    PartsIn(c);
    var n := |Base(c)|;
    assert c[..n] == Base(c) && c[..n][0] == c[0];
    if n < |c| {
      assert c == c[..n] + [c[n]] + c[n + 1..];
    }
  }

  lemma NameLetters(c: string)
    requires IsName83(c)
    ensures !HasSep(c) && '*' !in c && forall x :: x in c ==> DirChar(x)
  {
    hide DirChar, Base, Ext, HasSep;
  }

  /** What a component is converted to is an 8.3 name. */
  lemma ConvertedIsName(s: string)
    requires Convert83(s).Name? && s != "" && s[0] != '.' && !HasSep(s)
    ensures IsName83(Convert83(s).text)
  {
    var n, e := Base(s), Ext(s);
    assert n != "";
    assert FieldOk(n, FNAME_SIZE) && FieldOk(e, FEXT_SIZE) && '.' !in e;
    assert Convert83(s).text == Field(n, FNAME_SIZE) + if e == "" then "" else "." + Field(e, FEXT_SIZE);
    FieldEmpty(FEXT_SIZE);
    hide *;
    FieldChars(n, FNAME_SIZE);
    FieldChars(e, FEXT_SIZE);
    PartsIn(s);
    NoSepParts(s);
    DotAllowed();
    NameWhole(Field(n, FNAME_SIZE), Field(e, FEXT_SIZE), Convert83(s).text);
  }

  lemma FieldEmpty(i: nat)
    ensures Field("", i) == "" && FEXT_SIZE == 3 && FNAME_SIZE == 8
  {
  }

  /** An 8.3 name is converted to itself. */
  lemma NameConverts(c: string)
    requires IsName83(c)
    ensures Convert83(c) == Name(c, '?' in c) && c != "" && c[0] != '.'
  {
    hide *;
    NameParts(c);
    var n, e := Base(c), Ext(c);
    FieldSame(n, FNAME_SIZE);
    FieldSame(e, FEXT_SIZE);
    ConvertWhole(c);
    assert n[0] in n;
  }

  lemma ConvertWhole(s: string)
    requires FieldOk(Base(s), FNAME_SIZE) && FieldOk(Ext(s), FEXT_SIZE) && '.' !in Ext(s)
    ensures Convert83(s).Name? && Convert83(s).wild == ('*' in s || '?' in s)
    ensures var n, e := Field(Base(s), FNAME_SIZE), Field(Ext(s), FEXT_SIZE);
            Convert83(s).text == if Ext(s) == "" then n else n + "." + e
  {
    hide Base, Ext, Field, FieldOk;
    var n := Field(Base(s), FNAME_SIZE);
    assert n + "" == n;
  }

  /** Upper case turns 8.3 names into 8.3 names. */
  lemma NameUpcased(up: char -> char, c: string)
    requires UpcaseOk(up) && IsName83(c)
    ensures IsName83(Upcased(up, c)) && ('?' in Upcased(up, c) <==> '?' in c)
    ensures Upcased(up, Upcased(up, c)) == Upcased(up, c)
  {
    NameParts(c);
    var n, e := Base(c), Ext(c);
    UpParts(up, n, e, c);
    hide *;
    UpChars(up, c);
    UpChars(up, n);
    UpChars(up, e);
    PartsIn(c);
    NameWhole(Upcased(up, n), Upcased(up, e), Upcased(up, c));
  }

  lemma UpParts(up: char -> char, n: string, e: string, c: string)
    requires c == if e == "" then n else n + "." + e
    requires UpcaseOk(up)
    ensures Upcased(up, c) == if Upcased(up, e) == "" then Upcased(up, n) else Upcased(up, n) + "." + Upcased(up, e)
  {
    hide UpcaseOk;
    UpDot(up);
    UpJoin(up, n + ".", e);
    UpJoin(up, n, ".");
  }

  lemma UpDot(up: char -> char)
    requires UpcaseOk(up)
    ensures Upcased(up, ".") == "." && Upcased(up, "") == ""
  {
  }

  lemma UpJoin(up: char -> char, a: string, b: string)
    ensures Upcased(up, a + b) == Upcased(up, a) + Upcased(up, b)
  {
  }

  lemma UpChars(up: char -> char, s: string)
    requires UpcaseOk(up)
    ensures var r := Upcased(up, s);
            && |r| == |s| && ('.' in r <==> '.' in s) && ('?' in r <==> '?' in s) && Upcased(up, r) == r
            && ((forall x :: x in s ==> DirChar(x) && x != '*' && !Sep(x)) ==>
                forall x :: x in r ==> DirChar(x) && x != '*' && !Sep(x))
  {
    var r := Upcased(up, s);
    UpIn(up, s, '.');
    UpIn(up, s, '?');
    if forall x :: x in s ==> DirChar(x) && x != '*' && !Sep(x) {
      forall x | x in r ensures DirChar(x) && x != '*' && !Sep(x) {
        var i :| 0 <= i < |r| && r[i] == x;
        assert s[i] in s;
        UpChar(up, s[i]);
      }
    }
  }

  lemma UpChar(up: char -> char, c: char)
    requires UpcaseOk(up) && DirChar(c) && c != '*' && !Sep(c)
    ensures DirChar(up(c)) && up(c) != '*' && !Sep(up(c))
  {
  }

  lemma UpIn(up: char -> char, s: string, x: char)
    requires UpcaseOk(up) && (x == '.' || x == '?')
    ensures x in Upcased(up, s) <==> x in s
  {
    var r := Upcased(up, s);
    if x in s {
      var i :| 0 <= i < |s| && s[i] == x;
      assert r[i] == x;
    }
    if x in r {
      var i :| 0 <= i < |r| && r[i] == x;
      assert s[i] == x;
    }
  }

  // The same in numbers and by positions.

  /** A backslash or a slash. */
  ghost predicate IsSlash(c: char) {
    c as int == 92 || c as int == 47
  }

  /** Neither a control character nor one of "\"[]:|<>+=;,". */
  ghost predicate Allowed(c: char) {
    c as int >= 32 && c as int !in {34, 91, 93, 58, 124, 60, 62, 43, 61, 59, 44}
  }

  lemma CharsAre(c: char)
    ensures (Sep(c) <==> IsSlash(c)) && (DirChar(c) <==> Allowed(c))
  {
  }

  ghost function Least(a: nat, b: nat): nat {
    if a < b then a else b
  }

  /** `r` is `part` up to its first star and to `n` characters, filled up with question marks where there is a star;
      `j` is the place of that star or the end. */
  ghost predicate CutTo(part: string, n: nat, j: nat, r: string) {
    && j <= |part| && (forall k :: 0 <= k < j ==> part[k] as int != 42) && (j < |part| ==> part[j] as int == 42)
    && |r| == (if j < |part| then n else Least(j, n))
    && forall k :: 0 <= k < |r| ==> r[k] == if k < j then part[k] else '?'
  }

  ghost predicate AllAllowed(part: string, m: nat) {
    forall k :: 0 <= k < |part| && k < m ==> Allowed(part[k])
  }

  lemma {:induction false} FieldCut(part: string, n: nat) returns (j: nat)
    ensures CutTo(part, n, j, Field(part, n)) && (FieldOk(part, n) <==> AllAllowed(part, Least(j, n)))
  {
    if part == "" || part[0] == '*' {
      j := 0;
      if part != "" {
        FieldOver(part[1..]);
      }
    } else {
      var m := if n > 0 then n - 1 else 0;
      var j1 := FieldCut(part[1..], m);
      j := j1 + 1;
      CharsAre(part[0]);
      assert forall k :: 0 < k < |part| ==> part[k] == part[1..][k - 1];
      FirstToo(part, n, j);
    }
  }

  lemma FirstToo(part: string, n: nat, j: nat)
    requires part != "" && j > 0
    ensures AllAllowed(part, Least(j, n)) <==>
              (n > 0 ==> Allowed(part[0])) && AllAllowed(part[1..], Least(j - 1, if n > 0 then n - 1 else 0))
  {
    if AllAllowed(part, Least(j, n)) {
      forall k | 0 <= k < |part[1..]| && k < Least(j - 1, if n > 0 then n - 1 else 0) ensures Allowed(part[1..][k]) {
        assert part[1..][k] == part[k + 1];
      }
    }
    if (n > 0 ==> Allowed(part[0])) && AllAllowed(part[1..], Least(j - 1, if n > 0 then n - 1 else 0)) {
      forall k | 0 <= k < |part| && k < Least(j, n) ensures Allowed(part[k]) {
        if k > 0 {
          assert part[k] == part[1..][k - 1];
        }
      }
    }
  }

  lemma {:induction false} FieldOver(s: string)
    ensures Field(s, 0) == "" && FieldOk(s, 0)
  {
    if s != "" {
      FieldOver(s[1..]);
    }
  }

  /** What becomes of a component, by positions: it is cut at its first dot into a name and an extension, which are cut
      to eight and to three characters; a second dot, and a character that is not allowed before the cut, are
      refused. */
  lemma ConvertedPlainly(s: string) returns (d: nat, i: nat, j: nat, name: string, ext: string)
    ensures d <= |s| && (forall k :: 0 <= k < d ==> s[k] as int != 46) && (d < |s| ==> s[d] as int == 46)
    ensures CutTo(s[..d], 8, i, name) && (d < |s| ==> CutTo(s[d + 1..], 3, j, ext)) && (d == |s| ==> ext == "")
    ensures var wild := exists k :: 0 <= k < |s| && s[k] as int in {42, 63};
            Convert83(s) ==
            if AllAllowed(s[..d], Least(i, 8))
               && (d < |s| ==> '.' !in s[d + 1..] && AllAllowed(s[d + 1..], Least(j, 3)))
            then Name(if d + 1 < |s| then name + "." + ext else name, wild)
            else Bad
  {
    hide *;
    d := PartsOf(s);
    name := Field(s[..d], 8);
    i := FieldCut(s[..d], 8);
    j, ext := 0, "";
    if d < |s| {
      ext := Field(s[d + 1..], 3);
      j := FieldCut(s[d + 1..], 3);
    }
    WildIs(s);
  }

  lemma PartsOf(s: string) returns (d: nat)
    ensures d <= |s| && (forall k :: 0 <= k < d ==> s[k] as int != 46) && (d < |s| ==> s[d] as int == 46)
    ensures Convert83(s) ==
            if FieldOk(s[..d], 8) && (d < |s| ==> '.' !in s[d + 1..] && FieldOk(s[d + 1..], 3))
            then Name(if d + 1 < |s| then Field(s[..d], 8) + "." + Field(s[d + 1..], 3) else Field(s[..d], 8), Wild(s))
            else Bad
  {
    d := |Base(s)|;
    forall k | 0 <= k < d ensures s[k] != '.' {
      assert s[k] == s[..d][k];
    }
  }

  lemma WildIs(s: string)
    ensures Wild(s) <==> exists k :: 0 <= k < |s| && s[k] as int in {42, 63}
  {
  }

  /** The error for a bad path: -3 while there is a separator still to be read, else -2. */
  lemma ErrorIs(s: string)
    ensures PathError(s) == if exists k :: 0 <= k < |s| && IsSlash(s[k]) then -3 else -2
  {
    forall k | 0 <= k < |s| ensures Sep(s[k]) <==> IsSlash(s[k]) {
      CharsAre(s[k]);
    }
  }
}
