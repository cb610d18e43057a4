/** `truename` of kernel/newstuff.c for local drives: the path is put together in place, with a
    pointer into the destination that goes forward over names and back over "..". */
module TrueNames {
  import opened ErrorCodes
  import opened PathNames
  import TrueNameSpec

  /** The character at the source pointer, with the string's terminator. */
  function CharAt(src: string, k: nat): (c: char)
    ensures k < |src| ==> c == src[k]
    ensures k >= |src| ==> c == '\0'
  {
    if k < |src| then src[k] else '\0'
  }

  /** The end of a component. */
  predicate Ends(src: string, k: nat) {
    CharAt(src, k) == '/' || CharAt(src, k) == '\\' || CharAt(src, k) == '\0'
  }

  predicate NoZeros(src: string) {
    '\0' !in src
  }

  lemma EndsIs(src: string, k: nat)
    requires NoZeros(src)
    ensures Ends(src, k) <==> k >= |src| || Sep(src[k])
    ensures k < |src| ==> src[k] != '\0'
  {
  }

  /** What the loop over the characters of a component makes of those from some point on, with room for `i` more
      before or, once there has been a `dot`, in the extension. */
  function Scan(s: string, i: nat, dot: bool): Converted {
    if s == "" then Name("", false)
    else if s[0] == '*' then Before(Marks(i), true, Scan(s[1..], 0, dot))
    else if s[0] == '.' then
      (if dot then Bad else if s[1..] == "" then Name("", false) else Before(".", false, Scan(s[1..], FEXT_SIZE, true)))
    else if i > 0 then (if DirChar(s[0]) then Before([s[0]], s[0] == '?', Scan(s[1..], i - 1, dot)) else Bad)
    else Before("", s[0] == '?', Scan(s[1..], 0, dot))
  }

  /** A conversion with `text` already done. */
  function Before(text: string, wild: bool, r: Converted): Converted {
    if r == Bad then Bad else Name(text + r.text, wild || r.wild)
  }

  lemma BeforeTwice(a: string, w: bool, b: string, v: bool, r: Converted)
    ensures Before(a, w, Before(b, v, r)) == Before(a + b, w || v, r)
    ensures Before("", false, r) == r
  {
    if r.Name? {
      assert a + (b + r.text) == a + b + r.text;
      assert "" + r.text == r.text;
    }
  }

  lemma {:induction false} ScanExt(s: string, i: nat)
    ensures Scan(s, i, true) == if '.' in s || !FieldOk(s, i) then Bad else Name(Field(s, i), Wild(s))
  {
    if s != "" {
      assert s == [s[0]] + s[1..];
      ScanExt(s[1..], if s[0] == '*' then 0 else if i > 0 then i - 1 else 0);
    }
  }

  /** The loop over characters converts a component as by its name and extension. */
  lemma {:induction false} ScanBase(s: string, i: nat)
    ensures Scan(s, i, false) ==
            if !FieldOk(Base(s), i) || '.' in Ext(s) || !FieldOk(Ext(s), FEXT_SIZE) then Bad
            else Name(Field(Base(s), i) + (if Ext(s) == "" then "" else "." + Field(Ext(s), FEXT_SIZE)), Wild(s))
  {
    hide *;
    if s == "" {
      ScanNothing(i);
    } else if s[0] == '.' {
      ScanDot(s, i);
      DotName(s, i);
    } else {
      var i' := if s[0] == '*' then 0 else if i > 0 then i - 1 else 0;
      ScanBase(s[1..], i');
      BaseStep(s);
      FieldStep(Base(s), i);
      ScanName(s, i);
      WildStep(s);
      var n, e := Field(Base(s[1..]), i'), if Ext(s) == "" then "" else "." + Field(Ext(s), FEXT_SIZE);
      var head := if s[0] == '*' then Marks(i) else if i > 0 then [s[0]] else "";
      BeforeIs(head, s[0] == '*' || s[0] == '?', Scan(s[1..], i', false));
      Associate(head, n, e);
    }
  }

  lemma ScanNothing(i: nat)
    ensures Scan("", i, false) == Name("", false) && Base("") == "" && Ext("") == ""
    ensures Field("", i) == "" && FieldOk("", i) && FieldOk("", FEXT_SIZE) && Field("", i) + "" == "" && !Wild("")
  {
  }

  lemma DotName(s: string, i: nat)
    requires s != "" && Base(s) == "" && Field("", i) == ""
    ensures var e := if Ext(s) == "" then "" else "." + Field(Ext(s), FEXT_SIZE); Field(Base(s), i) + e == e
  {
  }

  lemma Associate(a: string, b: string, c: string)
    ensures a + (b + c) == a + b + c
  {
  }

  lemma BeforeIs(text: string, wild: bool, r: Converted)
    ensures Before(text, wild, r) == if r == Bad then Bad else Name(text + r.text, wild || r.wild)
  {
  }

  lemma WildStep(s: string)
    requires s != ""
    ensures Wild(s) <==> s[0] == '*' || s[0] == '?' || Wild(s[1..])
  {
    assert s == [s[0]] + s[1..];
  }

  lemma FieldStep(n: string, i: nat)
    requires n != ""
    ensures var i' := if n[0] == '*' then 0 else if i > 0 then i - 1 else 0;
            && Field(n, i) == (if n[0] == '*' then Marks(i) else if i > 0 then [n[0]] else "") + Field(n[1..], i')
            && (FieldOk(n, i) <==> (n[0] != '*' && i > 0 ==> DirChar(n[0])) && FieldOk(n[1..], i'))
  {
  }

  lemma ScanName(s: string, i: nat)
    requires s != "" && s[0] != '.'
    ensures var i' := if s[0] == '*' then 0 else if i > 0 then i - 1 else 0;
            Scan(s, i, false) == if s[0] != '*' && i > 0 && !DirChar(s[0]) then Bad
                                 else Before(if s[0] == '*' then Marks(i) else if i > 0 then [s[0]] else "",
                                             s[0] == '*' || s[0] == '?', Scan(s[1..], i', false))
  {
  }

  lemma BaseStep(s: string)
    requires s != "" && s[0] != '.'
    ensures Base(s) == [s[0]] + Base(s[1..]) && Ext(s) == Ext(s[1..])
    ensures Base(s)[0] == s[0] && Base(s)[1..] == Base(s[1..]) && Base(s) != ""
  {
    BaseFront(s);
    ExtIs(s);
    ExtIs(s[1..]);
    hide *;
    if |Base(s)| < |s| {
      TailOfTail(s, |Base(s)| + 1);
    }
  }

  lemma BaseFront(s: string)
    requires s != "" && s[0] != '.'
    ensures Base(s) == [s[0]] + Base(s[1..])
  {
  }

  lemma ExtIs(s: string)
    ensures Ext(s) == if |Base(s)| < |s| then s[|Base(s)| + 1..] else ""
  {
  }

  lemma TailOfTail(s: string, k: nat)
    requires 0 < k <= |s|
    ensures s[k..] == s[1..][k - 1..]
  {
  }

  lemma ScanDot(s: string, i: nat)
    requires s != "" && s[0] == '.'
    ensures Base(s) == "" && Ext(s) == s[1..] && Field("", i) == "" && FieldOk("", i)
    ensures Scan(s, i, false) == if '.' in s[1..] || !FieldOk(s[1..], FEXT_SIZE) then Bad
                                 else Name(if s[1..] == "" then "" else "." + Field(s[1..], FEXT_SIZE), Wild(s))
  {
    ScanExt(s[1..], FEXT_SIZE);
    assert s == ['.'] + s[1..];
  }

  lemma ScanIs(s: string)
    ensures Scan(s, FNAME_SIZE, false) == Convert83(s)
  {
    ScanBase(s, FNAME_SIZE);
  }

  lemma SepFurther(src: string, i: nat, j: nat)
    requires i <= j <= |src| && forall k :: i <= k < j ==> !Sep(src[k])
    ensures PathError(src[i..]) == PathError(src[j..])
  {
    if HasSep(src[i..]) {
      var k :| 0 <= k < |src[i..]| && Sep(src[i..][k]);
      assert src[j..][k - (j - i)] == src[i + k];
    }
    if HasSep(src[j..]) {
      var k :| 0 <= k < |src[j..]| && Sep(src[j..][k]);
      assert src[i..][k + (j - i)] == src[j + k];
    }
  }

  lemma ScanStep(src: string, k: nat, hi: nat, i: nat, dot: bool)
    requires k < hi <= |src|
    ensures src[k..hi][0] == src[k] && src[k..hi][1..] == src[k + 1..hi] && (src[k + 1..hi] == "" <==> k + 1 == hi)
    ensures Scan(src[k..hi], i, dot) ==
            if src[k] == '*' then Before(Marks(i), true, Scan(src[k + 1..hi], 0, dot))
            else if src[k] == '.' then
              (if dot then Bad
               else if k + 1 == hi then Name("", false)
               else Before(".", false, Scan(src[k + 1..hi], 3, true)))
            else if i > 0 then
              (if DirChar(src[k]) then Before([src[k]], src[k] == '?', Scan(src[k + 1..hi], i - 1, dot)) else Bad)
            else Before("", src[k] == '?', Scan(src[k + 1..hi], 0, dot))
  {
  }

  /** One character of a component. `done` is what has been written of it. */
  method ScanChar(src: string, k: nat, dest: array<char>, p: nat, i: nat, dot: bool, ghost hi: nat)
      returns (e: int, p': nat, i': nat, dot': bool, wild: bool, stop: bool, ghost text: string)
    requires dest.Length > SFTMAX && p <= SFTMAX && k < hi <= |src| && NoZeros(src)
    requires forall j :: k <= j < hi ==> !Sep(src[j])
    requires hi == |src| || Sep(src[hi])
    modifies dest
    ensures e == 0 || e == PathError(src[hi..])
    ensures e != 0 ==> TooLong(p, Scan(src[k..hi], i, dot))
    ensures e == 0 && !stop ==> Scan(src[k..hi], i, dot) == Before(text, wild, Scan(src[k + 1..hi], i', dot'))
    ensures e == 0 && stop ==> k + 1 == hi && Scan(src[k..hi], i, dot) == Name("", false) && text == "" && !wild
    ensures e == 0 ==> p' == p + |text| <= SFTMAX && dest[..p'] == old(dest[..p]) + text
  {
    var c := src[k];
    e, p', i', dot', wild, stop, text := 0, p, i, dot, false, false, "";
    ScanStep(src, k, hi, i, dot);
    SepFurther(src, k + 1, hi);
    EndsIs(src, k + 1);
    EndsIs(src, hi);
    if c == '*' {
      wild := true;
      var ok;
      ok, p' := AddMarks(dest, p, i);
      i', text := 0, Marks(i);
      if !ok {
        e := PathError(src[k + 1..]);
      }
      return;
    }
    if c == '.' {
      if dot {
        e := PathError(src[k + 1..]);
        return;
      }
      if Ends(src, k + 1) {
        stop := true;
        assert dest[..p] + "" == dest[..p];
        return;
      }
      dot', i' := true, FEXT_SIZE + 1;
    } else if c == '?' {
      wild := true;
    }
    if i' > 0 {
      i' := i' - 1;
      if !DirChar(c) || p >= SFTMAX {
        e := PathError(src[k + 1..]);
        return;
      }
      dest[p] := c;
      p', text := p + 1, [c];
      assert dest[..p + 1] == old(dest[..p]) + [c];
    } else {
      assert dest[..p] + "" == dest[..p];
    }
  }

  /** The text does not fit, or there is none. */
  predicate TooLong(p: nat, r: Converted) {
    r == Bad || p + |r.text| > SFTMAX
  }

  /** The question marks that a star stands for. */
  method AddMarks(dest: array<char>, p: nat, n: nat) returns (ok: bool, p': nat)
    requires dest.Length > SFTMAX && p <= SFTMAX
    modifies dest
    ensures ok <==> p + n <= SFTMAX
    ensures ok ==> p' == p + n && dest[..p'] == old(dest[..p]) + Marks(n)
  {
    var i := n;
    p' := p;
    assert dest[..p] == dest[..p] + Marks(0);
    while i > 0
      invariant 0 <= i <= n && p' == p + (n - i) <= SFTMAX && dest[..p'] == old(dest[..p]) + Marks(n - i)
    {
      i := i - 1;
      if p' >= SFTMAX {
        return false, p';
      }
      dest[p'] := '?';
      p' := p' + 1;
      assert Marks(n - i) == Marks(n - i - 1) + "?";
      assert dest[..p'] == old(dest[..p]) + Marks(n - i);
    }
    ok := true;
  }

  /** A component copied to the destination in 8.3 form. */
  method Component(src: string, k0: nat, dest: array<char>, p0: nat, ghost hi: nat)
      returns (e: int, k: nat, p: nat, wild: bool, ghost text: string)
    requires dest.Length > SFTMAX && p0 <= SFTMAX && k0 <= hi <= |src| && NoZeros(src)
    requires forall j :: k0 <= j < hi ==> !Sep(src[j])
    requires hi == |src| || Sep(src[hi])
    modifies dest
    ensures e == 0 || e == PathError(src[hi..])
    ensures e != 0 ==> TooLong(p0, Convert83(src[k0..hi]))
    ensures e == 0 ==> k == hi && Convert83(src[k0..hi]) == Name(text, wild) && p == p0 + |text| <= SFTMAX
    ensures e == 0 ==> dest[..p] == old(dest[..p0]) + text
  {
    hide *;
    var i, dot := Sizes(), false;
    e, k, p, wild, text := 0, k0, p0, false, "";
    ghost var r := Scan(src[k0..hi], i, dot);
    ScanIs(src[k0..hi]);
    BeforeTwice("", false, "", false, r);
    assert dest[..p0] + "" == dest[..p0];
    EndsIs(src, k);
    while !Ends(src, k)
      invariant k0 <= k <= hi && (Ends(src, k) <==> k == hi) && p == p0 + |text| <= 128
      invariant dest[..p] == old(dest[..p0]) + text
      invariant r == Before(text, wild, Scan(src[k..hi], i, dot))
      decreases hi - k
    {
      ghost var before, w, rest := text, wild, Scan(src[k..hi], i, dot);
      ghost var at := p;
      var wild', stop;
      ghost var more;
      e, p, i, dot, wild', stop, more := ScanChar(src, k, dest, p, i, dot, hi);
      if e != 0 {
        TooLongBefore(p0, before, w, rest);
        return;
      }
      k := k + 1;
      EndsIs(src, k);
      text, wild := before + more, wild || wild';
      if stop {
        LastDot(before, w);
        return;
      }
      BeforeTwice(before, w, more, wild', Scan(src[k..hi], i, dot));
      assert old(dest[..p0]) + before + more == old(dest[..p0]) + (before + more);
    }
    AtEnd(src, hi, i, dot);
    LastDot(text, wild);
  }

  function Sizes(): (n: nat)
    ensures n == FNAME_SIZE == 8 && SFTMAX == 128
  {
    FNAME_SIZE
  }

  lemma TooLongBefore(p: nat, text: string, wild: bool, r: Converted)
    requires TooLong(p + |text|, r)
    ensures TooLong(p, Before(text, wild, r))
  {
  }

  lemma LastDot(text: string, wild: bool)
    ensures Before(text, wild, Name("", false)) == Name(text, wild) && text + "" == text
  {
  }

  lemma AtEnd(src: string, hi: nat, i: nat, dot: bool)
    requires hi <= |src|
    ensures Scan(src[hi..hi], i, dot) == Name("", false)
  {
  }

  /** The drive letter and colon before a path. */
  type Root = s: string | |s| == 2 && s[1] == ':' witness "A:"

  /** What is in the destination: the drive and the directories so far. */
  ghost predicate Written(dest: array<char>, p: nat, root: Root, dirs: seq<string>)
    reads dest
  {
    p <= SFTMAX < dest.Length && dest[..p] == root + Render(dirs) && dest[2] == '\\' && AllNames(dirs)
  }

  lemma WrittenParts(dest: array<char>, p: nat, root: Root, dirs: seq<string>)
    requires Written(dest, p, root, dirs)
    ensures 2 <= p == 2 + |Render(dirs)| <= 128 < dest.Length && dest[2] == '\\' && dest[p - 1] != '\\'
    ensures dest[..p] == root + Render(dirs) && AllNames(dirs) && (p == 2 <==> dirs == []) && dest[1] == ':'
  {
    var text := dest[..p];
    assert text == root + Render(dirs) && dest[2] == '\\' && AllNames(dirs);
    hide *;
    SizesAre();
    assert dest[1] == text[1] && (dirs == [] ==> |Render(dirs)| == 0) by {
      EmptyRender();
    }
    if dirs == [] {
      EmptyRender();
    } else {
      SizesAre();
      LastName(dirs);
      TrueNameSpec.RenderPop(dirs);
      Associate(root, Render(dirs[..|dirs| - 1]) + "\\", dirs[|dirs| - 1]);
      AtBack(dest, p, root + Render(dirs[..|dirs| - 1]), dirs[|dirs| - 1]);
    }
  }

  lemma EmptyRender()
    ensures Render([]) == ""
  {
  }

  lemma SizesAre()
    ensures SFTMAX == 128
  {
  }

  lemma WrittenWhole(dest: array<char>, p: nat, root: Root, dirs: seq<string>)
    requires p <= SFTMAX < dest.Length && dest[..p] == root + Render(dirs) && dest[2] == '\\' && AllNames(dirs)
    ensures Written(dest, p, root, dirs)
  {
  }

  /** `Resolve`, one component on. */
  lemma ResolveFront(dirs: seq<string>, s: string, t: string, c: string, rest: string, allowWild: bool)
    requires s != "" && t == SkipSeps(s) && c == Segment(t) && rest == t[|c|..]
    ensures Resolve(dirs, s, false, allowWild) ==
            if 2 + |Render(dirs)| >= 128 then Fail(PathError(s))
            else if c == "" then Path(dirs, true)
            else if c == "." then Resolve(dirs, rest, false, allowWild)
            else if c == ".." then (if dirs == [] then Fail(-3)
                                    else Resolve(dirs[..|dirs| - 1], rest, false, allowWild))
            else if c[0] == '.' then Fail(PathError(rest))
            else match Convert83(c)
              case Bad => Fail(PathError(rest))
              case Name(text, wild) =>
                if 2 + |Render(dirs + [text])| > 128 then Fail(PathError(rest))
                else Resolve(dirs + [text], rest, wild, allowWild)
  {
    hide Convert83, Segment, SkipSeps, Render, HasSep, PathError;
  }

  /** Over duplicated separators. */
  method SkipSeparators(src: string, k0: nat) returns (k: nat, ghost hi: nat)
    requires k0 <= |src|
    ensures k0 <= k <= hi <= |src| && src[k..] == SkipSeps(src[k0..]) && src[k..hi] == Segment(src[k..])
    ensures (hi == |src| || Sep(src[hi])) && forall j :: k <= j < hi ==> !Sep(src[j])
    ensures src[k..][|src[k..hi]|..] == src[hi..] && (k == hi <==> k == |src|)
  {
    hide *;
    k := k0;
    ghost var r := SkipSeps(src[k0..]);
    while CharAt(src, k) == '/' || CharAt(src, k) == '\\'
      invariant k0 <= k <= |src| && r == SkipSeps(src[k..])
      decreases |src| - k
    {
      SkipHere(src, k);
      k := k + 1;
    }
    StopHere(src, k);
    hi := SegmentAt(src, k);
  }

  lemma SkipHere(src: string, k: nat)
    requires k <= |src| && (CharAt(src, k) == '/' || CharAt(src, k) == '\\')
    ensures k < |src| && SkipSeps(src[k..]) == SkipSeps(src[k + 1..])
  {
    assert src[k..][0] == src[k] && src[k..][1..] == src[k + 1..];
  }

  lemma StopHere(src: string, k: nat)
    requires k <= |src| && !(CharAt(src, k) == '/' || CharAt(src, k) == '\\')
    ensures k == |src| || !Sep(src[k])
    ensures SkipSeps(src[k..]) == src[k..]
  {
  }

  lemma {:induction false} SegmentAt(src: string, k: nat) returns (hi: nat)
    requires k <= |src|
    ensures k <= hi <= |src| && src[k..hi] == Segment(src[k..]) && src[k..][|src[k..hi]|..] == src[hi..]
    ensures (hi == |src| || Sep(src[hi])) && forall j :: k <= j < hi ==> !Sep(src[j])
    ensures k < |src| && !Sep(src[k]) ==> k < hi
    decreases |src| - k
  {
    hide *;
    SegmentStep(src[k..]);
    SliceTail(src, k, k);
    if k == |src| || Sep(src[k]) {
      hi := k;
    } else {
      hi := SegmentAt(src, k + 1);
      SliceHead(src, k, hi);
      SliceTail(src, k, hi);
    }
  }

  /** Back over the last directory, to the backslash before it. */
  method PopDir(dest: array<char>, p0: nat, ghost root: Root, ghost dirs: seq<string>) returns (ok: bool, p: nat)
    requires Written(dest, p0, root, dirs)
    ensures ok <==> dirs != []
    ensures ok ==> Written(dest, p, root, dirs[..|dirs| - 1])
  {
    SizesAre();
    WrittenParts(dest, p0, root, dirs);
    if dirs == [] {
      assert dest[1] == ':';
    } else {
      Popped(dest, p0, root, dirs);
    }
    p := p0 - 1;
    while dest[p] != '\\'
      invariant 1 <= p < p0
      invariant dirs == [] ==> p == 1
      invariant dirs != [] ==> p >= 2 + |Render(dirs[..|dirs| - 1])|
      decreases p
    {
      if p <= 2 {
        return false, p;
      }
      p := p - 1;
    }
    ok := true;
  }

  lemma Popped(dest: array<char>, p: nat, root: Root, dirs: seq<string>)
    requires Written(dest, p, root, dirs) && dirs != []
    ensures var init := dirs[..|dirs| - 1];
            var q := 2 + |Render(init)|;
            && q < p && Written(dest, q, root, init) && dest[q] == '\\'
            && (forall j :: q < j < p ==> dest[j] != '\\')
  {
    hide *;
    SizesAre();
    WrittenParts(dest, p, root, dirs);
    var init, last := dirs[..|dirs| - 1], dirs[|dirs| - 1];
    TrueNameSpec.RenderPop(dirs);
    LastName(dirs);
    AtBack(dest, p, root + Render(init), last);
    WrittenWhole(dest, 2 + |Render(init)|, root, init);
  }

  lemma LastName(dirs: seq<string>)
    requires AllNames(dirs) && dirs != []
    ensures AllNames(dirs[..|dirs| - 1]) && '\\' !in dirs[|dirs| - 1] && dirs[|dirs| - 1] != ""
  {
    assert dirs[|dirs| - 1] in dirs;
    NameParts(dirs[|dirs| - 1]);
  }

  lemma AtBack(dest: array<char>, p: nat, front: string, last: string)
    requires p <= dest.Length && dest[..p] == front + "\\" + last && '\\' !in last
    ensures |front| < p && dest[..|front|] == front && dest[|front|] == '\\'
    ensures forall j :: |front| < j < p ==> dest[j] != '\\'
  {
    var text := dest[..p];
    assert dest[..|front|] == text[..|front|];
    assert dest[|front|] == text[|front|];
    forall j | |front| < j < p ensures dest[j] != '\\' {
      assert dest[j] == text[j] == last[j - |front| - 1];
    }
  }

  /** What the turn of the loop for one component has done: gone on to `dirs'`, or come to the end of a path that
      ends in a separator. */
  ghost predicate Advanced(dest: array<char>, src: string, k: nat, p: nat, root: Root, dirs: seq<string>,
                           allowWild: bool,
                           k': nat, p': nat, dirs': seq<string>, wild: bool, trailing: bool)
    reads dest
  {
    && k < k' <= |src|
    && if trailing then
         && k' == |src| && !wild && 0 < p' <= SFTMAX < dest.Length && Written(dest, p' - 1, root, dirs')
         && dest[p' - 1] == '\\'
         && Resolve(dirs, src[k..], false, allowWild) == Path(dirs', true)
       else Written(dest, p', root, dirs')
            && Resolve(dirs, src[k..], false, allowWild) == Resolve(dirs', src[k'..], wild, allowWild)
  }

  lemma AdvancedOn(dest: array<char>, src: string, k: nat, p: nat, root: Root, dirs: seq<string>, allowWild: bool,
                   k': nat, p': nat, dirs': seq<string>, wild: bool)
    requires k < k' <= |src| && Written(dest, p', root, dirs')
    requires Resolve(dirs, src[k..], false, allowWild) == Resolve(dirs', src[k'..], wild, allowWild)
    ensures Advanced(dest, src, k, p, root, dirs, allowWild, k', p', dirs', wild, false)
  {
  }

  lemma AdvancedToEnd(dest: array<char>, src: string, k: nat, p: nat, root: Root, dirs: seq<string>, allowWild: bool,
                      p': nat)
    requires k < |src| && 0 < p' <= 128 < dest.Length && Written(dest, p' - 1, root, dirs) && dest[p' - 1] == '\\'
    requires Resolve(dirs, src[k..], false, allowWild) == Path(dirs, true)
    ensures Advanced(dest, src, k, p, root, dirs, allowWild, |src|, p', dirs, false, true)
  {
  }

  lemma AdvancedParts(dest: array<char>, src: string, k: nat, p: nat, root: Root, dirs: seq<string>, allowWild: bool,
                      k': nat, p': nat, dirs': seq<string>, wild: bool, trailing: bool)
    requires Advanced(dest, src, k, p, root, dirs, allowWild, k', p', dirs', wild, trailing)
    ensures k < k' <= |src|
    ensures trailing ==>
              && k' == |src| && !wild && 0 < p' <= 128 < dest.Length && Written(dest, p' - 1, root, dirs')
              && dest[p' - 1] == '\\'
              && Resolve(dirs, src[k..], false, allowWild) == Path(dirs', true)
    ensures !trailing ==>
              && Written(dest, p', root, dirs')
              && Resolve(dirs, src[k..], false, allowWild) == Resolve(dirs', src[k'..], wild, allowWild)
  {
  }

  /** What the next component does, where it is in the source. */
  ghost predicate Front(dirs: seq<string>, src: string, k0: nat, k: nat, hi: nat, allowWild: bool)
    requires k0 < |src| && k0 <= k <= hi <= |src|
  {
    var c, rest := src[k..hi], src[hi..];
    Resolve(dirs, src[k0..], false, allowWild) ==
    if c == "" then Path(dirs, true)
    else if c == "." then Resolve(dirs, rest, false, allowWild)
    else if c == ".." then (if dirs == [] then Fail(-3) else Resolve(dirs[..|dirs| - 1], rest, false, allowWild))
    else if c[0] == '.' then Fail(PathError(rest))
    else match Convert83(c)
      case Bad => Fail(PathError(rest))
      case Name(text, wild) =>
        if 2 + |Render(dirs + [text])| > 128 then Fail(PathError(rest))
        else Resolve(dirs + [text], rest, wild, allowWild)
  }

  lemma FrontIs(dirs: seq<string>, src: string, k0: nat, k: nat, hi: nat, allowWild: bool)
    requires k0 < |src| && k0 <= k <= hi <= |src| && src[k..] == SkipSeps(src[k0..]) && src[k..hi] == Segment(src[k..])
    requires src[k..][|src[k..hi]|..] == src[hi..] && 2 + |Render(dirs)| < 128
    ensures Front(dirs, src, k0, k, hi, allowWild)
  {
    SliceTail(src, k0, k0);
    hide Resolve, Convert83, Segment, SkipSeps, Render, PathError;
    ResolveFront(dirs, src[k0..], src[k..], src[k..hi], src[hi..], allowWild);
  }

  /** For a component that begins with a dot, and for another. */
  lemma FrontDots(dirs: seq<string>, src: string, k0: nat, k: nat, hi: nat, allowWild: bool)
    requires k0 < |src| && k0 <= k < hi <= |src| && Front(dirs, src, k0, k, hi, allowWild) && src[k] == '.'
    ensures var c, rest := src[k..hi], src[hi..];
            Resolve(dirs, src[k0..], false, allowWild) ==
            if c == "." then Resolve(dirs, rest, false, allowWild)
            else if c == ".." then (if dirs == [] then Fail(-3)
                                    else Resolve(dirs[..|dirs| - 1], rest, false, allowWild))
            else Fail(PathError(rest))
  {
    hide Resolve, Convert83, Render, PathError;
    assert src[k..hi][0] == '.';
  }

  lemma FrontName(dirs: seq<string>, src: string, k0: nat, k: nat, hi: nat, allowWild: bool)
    requires k0 < |src| && k0 <= k <= hi <= |src| && Front(dirs, src, k0, k, hi, allowWild)
    requires k < hi ==> src[k..hi] != "" && src[k..hi][0] != '.' && src[k..hi] != "." && src[k..hi] != ".."
    requires k == hi ==> src[k..hi] == ""
    ensures Resolve(dirs, src[k0..], false, allowWild) ==
            if k == hi then Path(dirs, true)
            else match Convert83(src[k..hi])
              case Bad => Fail(PathError(src[hi..]))
              case Name(text, wild) =>
                if 2 + |Render(dirs + [text])| > 128 then Fail(PathError(src[hi..]))
                else Resolve(dirs + [text], src[hi..], wild, allowWild)
  {
    hide Resolve, Convert83, Render, PathError;
  }

  lemma TooFar(dirs: seq<string>, s: string, allowWild: bool)
    requires s != "" && 2 + |Render(dirs)| >= 128
    ensures Resolve(dirs, s, false, allowWild) == Fail(PathError(s))
  {
  }

  /** The special components, behind the first dot of which the source pointer goes; the backslash before them is
      taken back. */
  method Dots(dest: array<char>, src: string, k0: nat, p0: nat, ghost hi: nat, ghost root: Root,
              ghost dirs: seq<string>)
      returns (e: int, k: nat, p: nat, ghost dirs': seq<string>)
    requires k0 < hi <= |src| && NoZeros(src) && src[k0] == '.' && (hi == |src| || Sep(src[hi]))
    requires forall j :: k0 <= j < hi ==> !Sep(src[j])
    requires p0 > 0 && Written(dest, p0 - 1, root, dirs)
    ensures e != 0 ==> (src[k0..hi] == ".." && dirs == [] && e == -3)
                       || (src[k0..hi] != "." && src[k0..hi] != ".." && e == PathError(src[hi..]))
    ensures e == 0 ==> k == hi && Written(dest, p, root, dirs')
                       && ((src[k0..hi] == "." && dirs' == dirs)
                           || (src[k0..hi] == ".." && dirs != [] && dirs' == dirs[..|dirs| - 1]))
  {
    hide *;
    Codes();
    SizesAre();
    WrittenParts(dest, p0 - 1, root, dirs);
    ghost var c := src[k0..hi];
    var dots := 1;
    e, k, p, dirs' := 0, k0 + 1, p0, dirs;
    EndsIs(src, k);
    EndsIs(src, k + 1);
    EndsIs(src, hi);
    if CharAt(src, k) == '.' {
      DotNoSep(src, k, hi);
      k := k + 1;
      dots := 2;
    }
    DotsAre(src, k0, hi, k, dots);
    if Ends(src, k) {
      p := p - 1;
      if dots == 2 {
        var ok;
        ok, p := PopDir(dest, p, root, dirs);
        if !ok {
          e := DE_PATHNOTFND;
          return;
        }
        dirs' := dirs[..|dirs| - 1];
      }
    } else {
      e := PathError(src[k..]);
      SepFurther(src, k, hi);
    }
  }

  lemma DotNoSep(src: string, k: nat, hi: nat)
    requires k <= hi <= |src| && (hi == |src| || Sep(src[hi])) && CharAt(src, k) == '.'
    ensures k < hi && src[k] == '.'
  {
  }

  lemma DotsAre(src: string, k0: nat, hi: nat, k: nat, dots: int)
    requires k0 < k <= hi <= |src| && src[k0] == '.' && NoZeros(src) && (hi == |src| || Sep(src[hi]))
    requires forall j :: k0 <= j < hi ==> !Sep(src[j])
    requires (dots == 1 && k == k0 + 1 && CharAt(src, k) != '.') || (dots == 2 && k == k0 + 2 && src[k0 + 1] == '.')
    ensures Ends(src, k) <==> k == hi
    ensures k == hi && dots == 1 ==> src[k0..hi] == "."
    ensures k == hi && dots == 2 ==> src[k0..hi] == ".."
    ensures k != hi ==> src[k0..hi] != "." && src[k0..hi] != ".."
  {
    EndsIs(src, k);
    if k == hi {
      if dots == 1 {
        assert src[k0..hi] == ".";
      } else {
        assert src[k0..hi] == "..";
      }
    }
  }

  /** A component that starts with no dot. */
  lemma NoDots(src: string, k: nat, hi: nat)
    requires k <= hi <= |src| && CharAt(src, k) != '.'
    ensures k < hi ==> src[k..hi] != "" && src[k..hi][0] != '.' && src[k..hi] != "." && src[k..hi] != ".."
    ensures k == hi ==> src[k..hi] == ""
  {
    if k < hi {
      assert src[k..hi][0] == src[k] && "."[0] == '.' && ".."[0] == '.';
    }
  }

  lemma EmptyFits(p: nat)
    requires p <= 128
    ensures Convert83("") == Name("", false) && !TooLong(p, Convert83(""))
  {
  }

  lemma TooLongIs(p: nat, r: Converted)
    ensures TooLong(p, r) <==> r == Bad || p + |r.text| > 128
  {
  }

  /** A name written behind the backslash. */
  lemma PushedDir(dest: array<char>, p0: nat, p: nat, root: Root, dirs: seq<string>, c: string, text: string)
    requires p == p0 + 1 + |text| <= 128 < dest.Length && AllNames(dirs) && p0 >= 2
    requires dest[..p] == root + Render(dirs) + "\\" + text && p0 == 2 + |Render(dirs)|
    requires dest[2] == '\\' && Convert83(c).Name? && Convert83(c).text == text && c != "" && c[0] != '.' && !HasSep(c)
    ensures Written(dest, p, root, dirs + [text])
  {
    hide Convert83, IsName83, HasSep;
    ConvertedIsName(c);
    TrueNameSpec.RenderPush(dirs, text);
    assert dest[..p] == root + Render(dirs + [text]);
  }

  /** The backslash before a component, copied from the root; there is one only when nothing was written yet. */
  method Backslash(dest: array<char>, p0: nat, ghost root: Root, ghost dirs: seq<string>) returns (ok: bool, p: nat)
    requires Written(dest, p0, root, dirs)
    modifies dest
    ensures p0 == 2 + |Render(dirs)| && (ok <==> p0 < 128)
    ensures ok ==>
              && p == p0 + 1 <= 128 < dest.Length && dest[..p] == root + Render(dirs) + "\\"
              && Written(dest, p0, root, dirs)
  {
    hide *;
    SizesAre();
    WrittenParts(dest, p0, root, dirs);
    ok, p := true, p0;
    if dest[p - 1] != dest[2] {
      if p >= SFTMAX {
        return false, p;
      }
      p := PutAfter(dest, p, dest[2]);
      WrittenWhole(dest, p0, root, dirs);
    }
  }

  method PutAfter(dest: array<char>, p0: nat, ch: char) returns (p: nat)
    requires 2 <= p0 < dest.Length && (p0 == 2 || dest[2] == ch)
    modifies dest
    ensures p == p0 + 1 && dest[..p] == old(dest[..p0]) + [ch] && dest[..p0] == old(dest[..p0]) && dest[2] == ch
  {
    dest[p0] := ch;
    p := p0 + 1;
  }

  /** A component copied to its place: the walk is one step on. */
  lemma Landed(dest: array<char>, src: string, k0: nat, p0: nat, root: Root, dirs: seq<string>, allowWild: bool,
               at: nat, hi: nat, p: nat, text: string, wild: bool)
    requires p == p0 + 1 + |text| <= 128 < dest.Length && AllNames(dirs) && p0 == 2 + |Render(dirs)|
    requires dest[..p] == root + Render(dirs) + "\\" + text && dest[2] == '\\'
    requires k0 <= at <= hi <= |src| && k0 < |src| && (at == hi <==> at == |src|)
    requires Convert83(src[at..hi]) == Name(text, wild)
    requires forall j :: at <= j < hi ==> !Sep(src[j])
    requires at < hi ==> src[at..hi] != "" && src[at..hi][0] != '.'
    requires Resolve(dirs, src[k0..], false, allowWild) ==
             if at == hi then Path(dirs, true) else Resolve(dirs + [text], src[hi..], wild, allowWild)
    ensures if at == hi then Advanced(dest, src, k0, p0, root, dirs, allowWild, |src|, p, dirs, false, true) && !wild
            else Advanced(dest, src, k0, p0, root, dirs, allowWild, hi, p, dirs + [text], wild, false)
  {
    hide *;
    SizesAre();
    if at == hi {
      SliceTail(src, at, hi);
      EmptyFits(0);
      BackslashLast(dest, p, root + Render(dirs));
      WrittenWhole(dest, p0, root, dirs);
      AdvancedToEnd(dest, src, k0, p0, root, dirs, allowWild, p);
    } else {
      NoSepIn(src, at, hi);
      PushedDir(dest, p0, p, root, dirs, src[at..hi], text);
      AdvancedOn(dest, src, k0, p0, root, dirs, allowWild, hi, p, dirs + [text], wild);
    }
  }

  lemma BackslashLast(dest: array<char>, p: nat, before: string)
    requires p <= dest.Length && dest[..p] == before + "\\"
    ensures p > 0 && p == |before| + 1 && dest[..p - 1] == before && dest[p - 1] == '\\'
  {
    assert dest[..p][..p - 1] == dest[..p - 1];
    assert dest[..p][p - 1] == dest[p - 1];
  }

  /** One turn of the loop over the components. */
  method Advance(dest: array<char>, src: string, k0: nat, p0: nat, allowWild: bool, ghost root: Root,
                 ghost dirs: seq<string>)
      returns (e: int, k: nat, p: nat, wild: bool, ghost dirs': seq<string>, ghost trailing: bool)
    requires k0 < |src| && NoZeros(src) && Written(dest, p0, root, dirs)
    modifies dest
    ensures e != 0 ==> Resolve(dirs, src[k0..], false, allowWild) == Fail(e)
    ensures e == 0 ==> Advanced(dest, src, k0, p0, root, dirs, allowWild, k, p, dirs', wild, trailing)
  {
    hide *;
    e, k, wild, dirs', trailing := 0, k0, false, dirs, false;
    var ok;
    ok, p := Backslash(dest, p0, root, dirs);
    if !ok {
      e := PathError(src[k..]);
      SliceTail(src, k0, |src|);
      TooFar(dirs, src[k0..], allowWild);
      return;
    }
    SizesAre();
    WrittenParts(dest, p0, root, dirs);
    ghost var hi;
    k, hi := SkipSeparators(src, k);
    FrontIs(dirs, src, k0, k, hi, allowWild);
    if CharAt(src, k) == '.' {
      e, k, p, dirs' := DotsOn(dest, src, k0, p0, allowWild, root, dirs, k, p, hi);
    } else {
      e, k, p, wild, dirs', trailing := NameOn(dest, src, k0, p0, allowWild, root, dirs, k, p, hi);
    }
  }

  /** That turn for a component that begins with a dot. */
  method DotsOn(dest: array<char>, src: string, ghost k0: nat, ghost p0: nat, ghost allowWild: bool, ghost root: Root,
                ghost dirs: seq<string>, at: nat, p1: nat, ghost hi: nat)
      returns (e: int, k: nat, p: nat, ghost dirs': seq<string>)
    requires k0 < |src| && k0 <= at <= hi <= |src| && NoZeros(src) && (hi == |src| || Sep(src[hi]))
    requires forall j :: at <= j < hi ==> !Sep(src[j])
    requires CharAt(src, at) == '.' && Front(dirs, src, k0, at, hi, allowWild) && p1 == p0 + 1
    requires Written(dest, p0, root, dirs)
    ensures e != 0 ==> Resolve(dirs, src[k0..], false, allowWild) == Fail(e)
    ensures e == 0 ==> Advanced(dest, src, k0, p0, root, dirs, allowWild, k, p, dirs', false, false)
  {
    hide *;
    DotNoSep(src, at, hi);
    FrontDots(dirs, src, k0, at, hi, allowWild);
    e, k, p, dirs' := Dots(dest, src, at, p1, hi, root, dirs);
    if e == 0 {
      AdvancedOn(dest, src, k0, p0, root, dirs, allowWild, k, p, dirs', false);
    }
  }

  /** That turn for a component that does not begin with a dot. */
  method NameOn(dest: array<char>, src: string, ghost k0: nat, ghost p0: nat, allowWild: bool, ghost root: Root,
                ghost dirs: seq<string>,
                at: nat, p1: nat, ghost hi: nat)
      returns (e: int, k: nat, p: nat, wild: bool, ghost dirs': seq<string>, ghost trailing: bool)
    requires k0 < |src| && k0 <= at <= hi <= |src| && NoZeros(src) && (at == hi <==> at == |src|)
    requires (hi == |src| || Sep(src[hi]))
    requires forall j :: at <= j < hi ==> !Sep(src[j])
    requires CharAt(src, at) != '.' && Front(dirs, src, k0, at, hi, allowWild)
    requires p1 == p0 + 1 <= 128 < dest.Length && p0 == 2 + |Render(dirs)| && AllNames(dirs)
    requires dest[..p1] == root + Render(dirs) + "\\" && dest[2] == '\\'
    modifies dest
    ensures e != 0 ==> Resolve(dirs, src[k0..], false, allowWild) == Fail(e)
    ensures e == 0 ==> Advanced(dest, src, k0, p0, root, dirs, allowWild, k, p, dirs', wild, trailing)
  {
    hide *;
    SizesAre();
    NoDots(src, at, hi);
    FrontName(dirs, src, k0, at, hi, allowWild);
    ghost var c, before := src[at..hi], dest[..p1];
    ghost var text;
    e, k, p, wild, text := Component(src, at, dest, p1, hi);
    dirs', trailing := dirs, false;
    TooLongIs(p0 + 1, Convert83(c));
    EmptyFits(p0 + 1);
    TrueNameSpec.RenderPush(dirs, if Convert83(c).Name? then Convert83(c).text else "");
    if e != 0 {
      return;
    }
    ThirdChar(before, dest[..p], text);
    Landed(dest, src, k0, p0, root, dirs, allowWild, at, hi, p, text, wild);
    if at == hi {
      trailing := true;
    } else {
      dirs' := dirs + [text];
    }
  }

  lemma ThirdChar(before: string, after: string, text: string)
    requires |before| > 2 && after == before + text
    ensures after[2] == before[2]
  {
  }

  lemma NoSepIn(src: string, k: nat, hi: nat)
    requires k <= hi <= |src| && forall j :: k <= j < hi ==> !Sep(src[j])
    ensures !HasSep(src[k..hi])
  {
  }

  /** The end of the path in the destination. */
  ghost predicate Finished(dest: array<char>, p: nat, root: Root, dirs: seq<string>, trailing: bool)
    reads dest
  {
    if trailing then 0 < p <= SFTMAX < dest.Length && Written(dest, p - 1, root, dirs) && dest[p - 1] == '\\'
    else Written(dest, p, root, dirs)
  }

  lemma FinishedWhole(dest: array<char>, p: nat, root: Root, dirs: seq<string>, trailing: bool)
    requires if trailing then 0 < p <= 128 < dest.Length && Written(dest, p - 1, root, dirs) && dest[p - 1] == '\\'
             else Written(dest, p, root, dirs)
    ensures Finished(dest, p, root, dirs, trailing)
  {
  }

  /** The loop over the components of a path. */
  method Walk(dest: array<char>, src: string, k0: nat, p0: nat, allowWild: bool, ghost root: Root,
              ghost dirs: seq<string>)
      returns (e: int, p: nat, ghost dirs': seq<string>, ghost trailing: bool)
    requires k0 <= |src| && NoZeros(src) && Written(dest, p0, root, dirs)
    modifies dest
    ensures e != 0 ==> Resolve(dirs, src[k0..], false, allowWild) == Fail(e)
    ensures e == 0 ==>
              && Resolve(dirs, src[k0..], false, allowWild) == Path(dirs', trailing)
              && Finished(dest, p, root, dirs', trailing)
  {
    hide *;
    Codes();
    var k, wild := k0, false;
    e, p, dirs', trailing := 0, p0, dirs, false;
    FinishedWhole(dest, p, root, dirs', false);
    ghost var r := Resolve(dirs, src[k0..], false, allowWild);
    while k < |src|
      invariant k <= |src| && Finished(dest, p, root, dirs', trailing)
      invariant if trailing then k == |src| && !wild && r == Path(dirs', true)
                else Written(dest, p, root, dirs') && r == Resolve(dirs', src[k..], wild, allowWild)
      decreases |src| - k
    {
      WildMiddle(dirs', src[k..], allowWild);
      assert |src[k..]| > 0;
      if wild {
        e := DE_PATHNOTFND;
        return;
      }
      ghost var here, at, from := dirs', p, k;
      e, k, p, wild, dirs', trailing := Advance(dest, src, k, p, allowWild, root, dirs');
      if e != 0 {
        return;
      }
      AdvancedParts(dest, src, from, at, root, here, allowWild, k, p, dirs', wild, trailing);
      FinishedWhole(dest, p, root, dirs', trailing);
    }
    if !trailing {
      assert src[k..] == "";
      PathEnds(dirs', wild, allowWild);
    }
    if wild && !allowWild {
      e := DE_PATHNOTFND;
    }
  }

  lemma WildMiddle(dirs: seq<string>, s: string, allowWild: bool)
    ensures s != "" ==> Resolve(dirs, s, true, allowWild) == Fail(DE_PATHNOTFND)
  {
  }

  lemma PathEnds(dirs: seq<string>, wild: bool, allowWild: bool)
    ensures Resolve(dirs, "", wild, allowWild) == if wild && !allowWild then Fail(-3) else Path(dirs, false)
  {
  }

  /** `strcpy`. */
  method Copy(dest: array<char>, s: string)
    requires |s| < dest.Length
    modifies dest
    ensures dest[..|s|] == s && dest[|s|] == '\0'
  {
    forall i | 0 <= i < |s| {
      dest[i] := s[i];
    }
    dest[|s|] := '\0';
  }

  /** `DosUpFString` from the root of the path on. */
  method UpFrom(dest: array<char>, lo: nat, hi: nat, up: char -> char)
    requires lo <= hi <= dest.Length
    modifies dest
    ensures dest[..lo] == old(dest[..lo]) && dest[lo..hi] == Upcased(up, old(dest[lo..hi]))
    ensures dest[hi..] == old(dest[hi..])
  {
    forall i | lo <= i < hi {
      dest[i] := up(dest[i]);
    }
  }

  /** The end of `truename`: a root gets its backslash, and the path its terminator and its upper case. */
  method Finish(dest: array<char>, p0: nat, up: char -> char, ghost root: Root, ghost dirs: seq<string>,
                ghost trailing: bool) returns (p: nat)
    requires Finished(dest, p0, root, dirs, trailing)
    modifies dest
    ensures 2 <= p < dest.Length && dest[..p] == root + Upcased(up, Text(dirs, trailing)) && dest[p] == '\0'
  {
    p := p0;
    SizesAre();
    WrittenParts(dest, if trailing then p - 1 else p, root, dirs);
    if trailing {
      assert dest[..p] == dest[..p - 1] + "\\";
    }
    if p == 2 {
      dest[p] := '\\';
      p := p + 1;
      assert dest[..p] == root + "\\";
    }
    assert dest[..p] == root + Text(dirs, trailing);
    dest[p] := '\0';
    assert dest[2..p] == dest[..p][2..] == Text(dirs, trailing) && dest[..2] == dest[..p][..2] == root;
    UpFrom(dest, 2, p, up);
    assert dest[..p] == dest[..2] + dest[2..p];
    assert dest[p] == dest[p..][0];
  }

  /** `truename` for a path on a local drive that names no device, or a UNC path. */
  method TrueName(src: string, drives: TrueNameSpec.Drives, defaultDrive: int, up: char -> char, allowWild: bool,
                  dest: array<char>)
      returns (r: int, n: nat)
    requires NoZeros(src) && dest.Length > SFTMAX && UpcaseOk(up) && TrueNameSpec.DrivesOk(drives)
    modifies dest
    ensures match TrueNameSpec.TrueName(src, drives, defaultDrive, up, allowWild)
            case Error(code) => r == code
            case Full(path) => r == TrueNameSpec.DriveOf(src, defaultDrive, up) && Holds(dest, n, path)
            case Network(path) => r == TrueNameSpec.IS_NETWORK && Holds(dest, n, path)
    ensures Answered(src, drives, defaultDrive, up, allowWild, dest, r, n)
  {
    hide *;
    TrueNameSpec.Plainly(src, drives, defaultDrive, up, allowWild);
    r, n := Qualify(src, drives, defaultDrive, up, allowWild, dest);
    AnswerShown(src, drives, defaultDrive, up, allowWild, dest, r, n);
  }

  /** The answer in plain terms: which drive it is on and names, where the path started, and what the errors are. */
  ghost predicate Answered(src: string, drives: TrueNameSpec.Drives, defaultDrive: int, up: char -> char,
                           allowWild: bool, dest: array<char>, r: int, n: nat)
    reads dest
  {
    var lettered := |src| > 1 && src[1] == ':';
    var drive := if lettered then (up(src[0]) as int - 65) % 256 else defaultDrive;
    var k := if lettered then 2 else 0;
    var absolute := k < |src| && (src[k] == '\\' || src[k] == '/');
    if src == "" then r == -2
    else if |src| > 1 && src[0] == '\\' && src[1] == '\\' then
      (if |src| < 128 then r == 0x40 && Holds(dest, n, src) else r == -3)
    else if drive !in drives then r == -3
    else
      match Resolve(if absolute then [] else drives[drive], src[if absolute then k + 1 else k..], false, allowWild)
      case Fail(code) => r == code && code in {-2, -3}
      case Path(dirs, trailing) =>
        && r == drive && OnDrive(dest, n, drive, Upcased(up, Text(dirs, trailing)))
        && (lettered && up(src[0]) as int < 256 ==> dest[0] == up(src[0]))
  }

  /** The letter of the drive, a colon, the path and its zero are in the destination. */
  ghost predicate OnDrive(dest: array<char>, n: nat, drive: int, path: string)
    reads dest
  {
    && 0 <= drive < 26 && 2 <= n < dest.Length
    && dest[0] as int == 65 + drive && dest[1] == ':' && dest[2..n] == path && dest[n] == '\0'
  }

  lemma AnswerShown(src: string, drives: TrueNameSpec.Drives, defaultDrive: int, up: char -> char, allowWild: bool,
                    dest: array<char>, r: int, n: nat)
    requires TrueNameSpec.DrivesOk(drives)
    requires match TrueNameSpec.TrueName(src, drives, defaultDrive, up, allowWild)
             case Error(code) => r == code
             case Full(path) => r == TrueNameSpec.DriveOf(src, defaultDrive, up) && Holds(dest, n, path)
             case Network(path) => r == TrueNameSpec.IS_NETWORK && Holds(dest, n, path)
    ensures Answered(src, drives, defaultDrive, up, allowWild, dest, r, n)
  {
    hide TrueNameSpec.TrueName, Resolve, Text, Upcased, Holds, TrueNameSpec.DrivesOk, OnDrive;
    TrueNameSpec.Plainly(src, drives, defaultDrive, up, allowWild);
    var lettered := |src| > 1 && src[1] == ':';
    var k := if lettered then 2 else 0;
    var absolute := k < |src| && (src[k] == '\\' || src[k] == '/');
    var drive := if lettered then (up(src[0]) as int - 65) % 256 else defaultDrive;
    if src != "" && !(|src| > 1 && src[0] == '\\' && src[1] == '\\') && drive in drives {
      var start, rest := if absolute then [] else drives[drive], src[if absolute then k + 1 else k..];
      var found := Resolve(start, rest, false, allowWild);
      ResolveFails(start, rest, false, allowWild);
      if found.Path? {
        OnDriveShown(dest, n, drive, Upcased(up, Text(found.dirs, found.trailing)));
      }
    }
  }

  lemma OnDriveShown(dest: array<char>, n: nat, drive: int, path: string)
    requires 0 <= drive < 26 && Holds(dest, n, [(65 + drive) as char, ':'] + path)
    ensures OnDrive(dest, n, drive, path)
  {
    TextShown(dest, n, [(65 + drive) as char, ':'] + path);
  }

  lemma TextShown(dest: array<char>, n: nat, text: string)
    requires Holds(dest, n, text) && |text| >= 2
    ensures 2 <= n < dest.Length && dest[0] == text[0] && dest[1] == text[1]
    ensures dest[2..n] == text[2..] && dest[n] == '\0'
  {
    assert dest[..n][0] == dest[0] && dest[..n][1] == dest[1] && dest[..n][2..] == dest[2..n];
  }

  lemma {:induction false} ResolveFails(dirs: seq<string>, s: string, wild: bool, allowWild: bool)
    ensures var r := Resolve(dirs, s, wild, allowWild); r.Fail? ==> r.error in {-2, -3}
    decreases |s|
  {
    hide Convert83, Segment, SkipSeps, Render, HasSep;
    if s != "" && !wild {
      var t := SkipSeps(s);
      var c := Segment(t);
      var rest := t[|c|..];
      if c == "." {
        ResolveFails(dirs, rest, false, allowWild);
      } else if c == ".." && dirs != [] {
        ResolveFails(dirs[..|dirs| - 1], rest, false, allowWild);
      } else if c != "" && c[0] != '.' && Convert83(c) != Bad {
        ResolveFails(dirs + [Convert83(c).text], rest, Convert83(c).wild, allowWild);
      }
    }
  }

  /** The body of `truename`. */
  method Qualify(src: string, drives: TrueNameSpec.Drives, defaultDrive: int, up: char -> char, allowWild: bool,
                 dest: array<char>)
      returns (r: int, n: nat)
    requires NoZeros(src) && dest.Length > SFTMAX && UpcaseOk(up) && TrueNameSpec.DrivesOk(drives)
    modifies dest
    ensures match TrueNameSpec.TrueName(src, drives, defaultDrive, up, allowWild)
            case Error(code) => r == code
            case Full(path) => r == TrueNameSpec.DriveOf(src, defaultDrive, up) && Holds(dest, n, path)
            case Network(path) => r == TrueNameSpec.IS_NETWORK && Holds(dest, n, path)
  {
    n := 0;
    if CharAt(src, 0) == '\0' {
      return DE_FILENOTFND, 0;
    }
    var lettered := CharAt(src, 1) == ':';
    r := if lettered then (up(src[0]) as int - 'A' as int) % 256 else defaultDrive;
    if CharAt(src, 0) == '\\' && CharAt(src, 1) == '\\' {
      r, n := CopyUnc(src, dest);
      return;
    }
    if r !in drives {
      return DE_PATHNOTFND, 0;
    }
    ghost var root: Root := [TrueNameSpec.Letter(r), ':'];
    ghost var s := TrueNameSpec.AfterDrive(src);
    var k := if lettered then 2 else 0;
    assert src[k..] == s;
    var e, p;
    ghost var dirs', trailing;
    k, p := Begin(src, k, drives[r], dest, TrueNameSpec.Letter(r));
    ghost var start := if TrueNameSpec.Absolute(s) then [] else drives[r];
    e, p, dirs', trailing := Walk(dest, src, k, p, allowWild, root, start);
    assert src[k..] == if TrueNameSpec.Absolute(s) then s[1..] else s;
    if e != 0 {
      return e, 0;
    }
    n := Finish(dest, p, up, root, dirs', trailing);
  }

  /** A text of `n` characters and its zero are in the destination. */
  ghost predicate Holds(dest: array<char>, n: nat, text: string)
    reads dest
  {
    n == |text| && n < dest.Length && dest[..n] == text && dest[n] == '\0'
  }

  /** A UNC path is copied as it is, with its zero. */
  method CopyUnc(src: string, dest: array<char>) returns (r: int, n: nat)
    requires NoZeros(src) && dest.Length > SFTMAX && TrueNameSpec.Unc(src)
    modifies dest
    ensures |src| < SFTMAX ==> r == TrueNameSpec.IS_NETWORK && Holds(dest, n, src)
    ensures |src| >= SFTMAX ==> r == DE_PATHNOTFND
  {
    n := 0;
    while true
      invariant n <= |src| && n <= SFTMAX && dest[..n] == src[..n]
      decreases |src| - n
    {
      EndsIs(src, n);
      var ch := CharAt(src, n);
      if n >= SFTMAX {
        r := PathError(src);
        return;
      }
      dest[n] := ch;
      if ch == '\0' {
        break;
      }
      n := n + 1;
    }
    r := TrueNameSpec.IS_NETWORK;
  }

  /** Where the path starts: at the root, or in the current directory of the drive. */
  method Begin(src: string, k0: nat, cwd: seq<string>, dest: array<char>, letter: char) returns (k: nat, p: nat)
    requires k0 <= |src| && NoZeros(src) && dest.Length > SFTMAX && AllNames(cwd) && 2 + |Render(cwd)| < SFTMAX
    modifies dest
    ensures k <= |src| && k == if TrueNameSpec.Absolute(src[k0..]) then k0 + 1 else k0
    ensures Written(dest, p, [letter, ':'], if TrueNameSpec.Absolute(src[k0..]) then [] else cwd)
  {
    var cp := [letter, ':'] + Text(cwd, false);
    ghost var root: Root := [letter, ':'];
    TrueNameSpec.TextLength(cwd, false);
    TextStarts(cwd);
    Copy(dest, cp);
    assert dest[2] == dest[..|cp|][2];
    k, p := k0, 2;
    if CharAt(src, k) != '\\' && CharAt(src, k) != '/' {
      p := |cp|;
    } else {
      k := k + 1;
    }
    assert TrueNameSpec.Absolute(src[k0..]) <==> k == k0 + 1;
    assert dest[1] == dest[..|cp|][1];
    if p > 2 && cwd != [] {
      assert dest[..p] == root + Render(cwd);
      WrittenWhole(dest, p, root, cwd);
      SizesAre();
      WrittenParts(dest, p, root, cwd);
    }
    if dest[p - 1] == '\\' {
      p := p - 1;
    }
    if p == 2 {
      assert dest[..2] == dest[..|cp|][..2] == root;
      assert root + Render([]) == root;
    }
  }

  lemma {:induction false} TextStarts(dirs: seq<string>)
    ensures |Text(dirs, false)| > 0 && Text(dirs, false)[0] == '\\'
  {
    if dirs != [] {
      var init := dirs[..|dirs| - 1];
      TextStarts(init);
      assert Render(dirs) == Render(init) + "\\" + dirs[|dirs| - 1];
      assert Text(dirs, false) == Render(dirs);
      assert init == [] ==> Render(init) == "";
      assert init != [] ==> Text(init, false) == Render(init);
    }
  }
}
