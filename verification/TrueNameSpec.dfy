/** What `truename` of kernel/newstuff.c gives for local drives, as a function of the path, and
    what is true of every path it gives. */
module TrueNameSpec {
  import opened ErrorCodes
  import opened PathNames

  const IS_NETWORK: int := 0x40

  /** A full path on a local drive, or a UNC path, which is for the network and left as it is. */
  datatype Answer = Error(code: int) | Full(path: string) | Network(path: string)

  /** Current directories of the valid drives. */
  type Drives = map<int, seq<string>>

  function Letter(drive: int): char
    requires 0 <= drive < 26
  {
    'A' + drive as char
  }

  /** The drive a path names, or the default. */
  function DriveOf(src: string, defaultDrive: int, up: char -> char): int {
    if |src| > 1 && src[1] == ':' then (up(src[0]) as int - 'A' as int) % 256 else defaultDrive
  }

  function AfterDrive(src: string): string {
    if |src| > 1 && src[1] == ':' then src[2..] else src
  }

  predicate Unc(src: string) {
    |src| > 1 && src[0] == '\\' && src[1] == '\\'
  }

  predicate Absolute(s: string) {
    s != "" && Sep(s[0])
  }

  /** The path in full, from the root of its drive, resolved on a stack of directories. */
  function TrueName(src: string, drives: Drives, defaultDrive: int, up: char -> char, allowWild: bool): Answer
    requires forall d :: d in drives ==> 0 <= d < 26
  {
    var drive := DriveOf(src, defaultDrive, up);
    if src == "" then Error(DE_FILENOTFND)
    else if Unc(src) then (if |src| < SFTMAX then Network(src) else Error(DE_PATHNOTFND))
    else if drive !in drives then Error(DE_PATHNOTFND)
    else
      var s := AfterDrive(src);
      var r := if Absolute(s) then Resolve([], s[1..], false, allowWild)
               else Resolve(drives[drive], s, false, allowWild);
      match r
      case Fail(e) => Error(e)
      case Path(dirs, trailing) => Full([Letter(drive), ':'] + Upcased(up, Text(dirs, trailing)))
  }

  predicate NoMarks(dirs: seq<string>) {
    forall i :: 0 <= i < |dirs| ==> '?' !in dirs[i]
  }

  /** A path within bounds, of 8.3 names, wildcards at most in the last of them and none before a separator. */
  ghost predicate Canonical(dirs: seq<string>, trailing: bool, allowWild: bool) {
    && AllNames(dirs) && 2 + |Render(dirs)| + (if trailing then 1 else 0) <= SFTMAX
    && (dirs != [] ==> NoMarks(dirs[..|dirs| - 1])) && (trailing || !allowWild ==> NoMarks(dirs))
  }

  lemma RenderPush(dirs: seq<string>, c: string)
    ensures Render(dirs + [c]) == Render(dirs) + "\\" + c
    ensures |Render(dirs + [c])| == |Render(dirs)| + 1 + |c|
  {
    assert (dirs + [c])[..|dirs + [c]| - 1] == dirs;
  }

  lemma RenderPop(dirs: seq<string>)
    requires dirs != []
    ensures Render(dirs) == Render(dirs[..|dirs| - 1]) + "\\" + dirs[|dirs| - 1]
    ensures |Render(dirs[..|dirs| - 1])| <= |Render(dirs)|
  {
  }

  /** A name without a wildcard is written without one. */
  lemma {:induction false} FieldMarks(s: string, i: nat)
    requires '*' !in s && '?' !in s
    ensures '?' !in Field(s, i)
  {
    if s != "" {
      FieldMarks(s[1..], if i > 0 then i - 1 else 0);
    }
  }

  lemma NotWild(s: string)
    requires Convert83(s).Name? && !Convert83(s).wild
    ensures '?' !in Convert83(s).text
  {
    PartsIn(s);
    FieldMarks(Base(s), FNAME_SIZE);
    FieldMarks(Ext(s), FEXT_SIZE);
  }

  /** Every path resolved is canonical. */
  lemma {:induction false} ResolvedCanonical(dirs: seq<string>, s: string, wild: bool, allowWild: bool)
    requires AllNames(dirs) && 2 + |Render(dirs)| <= SFTMAX
    requires (dirs != [] ==> NoMarks(dirs[..|dirs| - 1])) && (!wild ==> NoMarks(dirs))
    ensures var r := Resolve(dirs, s, wild, allowWild);
            r.Path? ==> Canonical(r.dirs, r.trailing, allowWild)
    decreases |s|
  {
    hide Convert83, Segment, SkipSeps, Render, HasSep, PathError, IsName83;
    if s != "" && !wild && 2 + |Render(dirs)| < SFTMAX {
      var t := SkipSeps(s);
      var c := Segment(t);
      var rest := t[|c|..];
      if c == "" {
      } else if c == "." {
        ResolvedCanonical(dirs, rest, false, allowWild);
      } else if c == ".." {
        if dirs != [] {
          RenderPop(dirs);
          ResolvedCanonical(dirs[..|dirs| - 1], rest, false, allowWild);
        }
      } else if c[0] != '.' && Convert83(c) != Bad {
        var name := Convert83(c);
        ConvertedIsName(c);
        if !name.wild {
          NotWild(c);
        }
        var more := dirs + [name.text];
        assert more[..|more| - 1] == dirs;
        if 2 + |Render(more)| <= SFTMAX {
          ResolvedCanonical(more, rest, name.wild, allowWild);
        }
      }
    }
  }

  /** The separator that a component may have before it. */
  function Lead(lead: bool): string {
    if lead then "\\" else ""
  }

  lemma {:induction false} SegmentOf(c: string, rest: string)
    requires !HasSep(c) && (rest == "" || Sep(rest[0]))
    ensures Segment(c + rest) == c
  {
    if c != "" {
      assert !Sep(c[0]);
      assert (c + rest)[1..] == c[1..] + rest;
      assert !HasSep(c[1..]) by {
        forall i | 0 <= i < |c[1..]| ensures !Sep(c[1..][i]) {
          assert c[1..][i] == c[i + 1];
        }
      }
      SegmentOf(c[1..], rest);
    }
  }

  lemma SkipLead(lead: bool, c: string, rest: string)
    requires c != "" && !Sep(c[0])
    ensures SkipSeps(Lead(lead) + c + rest) == c + rest
  {
    var t := c + rest;
    assert t != "" && t[0] == c[0];
    assert SkipSeps(t) == t;
    if lead {
      assert Lead(lead) + c + rest == "\\" + t;
      SkipOne(t);
    } else {
      assert Lead(lead) + c + rest == t;
    }
  }

  lemma SkipOne(t: string)
    ensures SkipSeps("\\" + t) == SkipSeps(t)
  {
    var s := "\\" + t;
    assert s != "" && s[0] == '\\' && s[1..] == t;
  }

  /** An 8.3 name at the front of a path goes on the stack as it is. */
  lemma ResolveName(dirs: seq<string>, lead: bool, c: string, rest: string, allowWild: bool)
    requires IsName83(c) && (rest == "" || Sep(rest[0])) && 2 + |Render(dirs + [c])| <= SFTMAX
    ensures Resolve(dirs, Lead(lead) + c + rest, false, allowWild) == Resolve(dirs + [c], rest, '?' in c, allowWild)
  {
    hide *;
    NameConverts(c);
    NameParts(c);
    RenderPush(dirs, c);
    assert c[0] in c && "."[0] == '.' && ".."[0] == '.';
    SkipLead(lead, c, rest);
    SegmentOf(c, rest);
    assert (c + rest)[|c|..] == rest;
    assert |Lead(lead) + c + rest| > 0;
    ResolveOnce(dirs, Lead(lead) + c + rest, c, rest, Name(c, '?' in c), allowWild);
  }

  /** A dot names the directory it is in. */
  lemma DotStays(dirs: seq<string>, rest: string, allowWild: bool)
    requires (rest == "" || Sep(rest[0])) && 2 + |Render(dirs)| < SFTMAX
    ensures Resolve(dirs, "." + rest, false, allowWild) == Resolve(dirs, rest, false, allowWild)
  {
    hide *;
    NoLead();
    SkipLead(false, ".", rest);
    assert Lead(false) + "." + rest == "." + rest;
    assert !HasSep(".") by { NoSeps("."); }
    SegmentOf(".", rest);
    assert ("." + rest)[1..] == rest && "."[0] == '.';
    Dotted(dirs, "." + rest, ".", rest, allowWild);
  }

  /** Two dots go back by one directory, and nowhere from the root. */
  lemma DotsGoBack(dirs: seq<string>, rest: string, allowWild: bool)
    requires (rest == "" || Sep(rest[0])) && 2 + |Render(dirs)| < SFTMAX
    ensures Resolve(dirs, ".." + rest, false, allowWild) ==
            if dirs == [] then Fail(-3) else Resolve(dirs[..|dirs| - 1], rest, false, allowWild)
  {
    hide *;
    NoLead();
    SkipLead(false, "..", rest);
    assert Lead(false) + ".." + rest == ".." + rest;
    assert !HasSep("..") by { NoSeps(".."); }
    SegmentOf("..", rest);
    assert (".." + rest)[2..] == rest && ".."[0] == '.';
    Dotted(dirs, ".." + rest, "..", rest, allowWild);
  }

  lemma NoLead()
    ensures Lead(false) == "" && Lead(true) == "\\" && !Sep('.')
  {
  }

  lemma NoSeps(c: string)
    requires c == "." || c == ".."
    ensures !HasSep(c)
  {
  }

  lemma Dotted(dirs: seq<string>, s: string, c: string, rest: string, allowWild: bool)
    requires SkipSeps(s) == c + rest && Segment(c + rest) == c && (c + rest)[|c|..] == rest && s != ""
    requires (c == "." || c == "..") && 2 + |Render(dirs)| < SFTMAX
    ensures Resolve(dirs, s, false, allowWild) ==
            if c == "." then Resolve(dirs, rest, false, allowWild)
            else if dirs == [] then Fail(-3)
            else Resolve(dirs[..|dirs| - 1], rest, false, allowWild)
  {
    hide Convert83, Segment, SkipSeps, Render, HasSep, PathError;
  }

  /** A separator, of either kind and however often, changes nothing behind a directory. */
  lemma SeparatorsSkipped(dirs: seq<string>, x: char, s: string, allowWild: bool)
    requires Sep(x) && 2 + |Render(dirs)| < SFTMAX && SkipSeps(s) != ""
    ensures Resolve(dirs, [x] + s, false, allowWild) == Resolve(dirs, s, false, allowWild)
  {
    assert ([x] + s)[1..] == s;
    assert SkipSeps([x] + s) == SkipSeps(s);
    assert SkipSeps("") == "";
    hide Convert83, Segment, Render, HasSep, PathError;
  }

  /** Down into a directory and back up is no move at all. */
  lemma DownAndUp(dirs: seq<string>, c: string, rest: string, allowWild: bool)
    requires IsName83(c) && '?' !in c && 2 + |Render(dirs + [c])| < SFTMAX && (rest == "" || Sep(rest[0]))
    ensures Resolve(dirs, c + "\\.." + rest, false, allowWild) == Resolve(dirs, rest, false, allowWild)
  {
    hide *;
    var up := "\\.." + rest;
    SlashIs(up);
    NoLead();
    assert Lead(false) + c + up == c + up == c + "\\.." + rest;
    ResolveName(dirs, false, c, up, allowWild);
    SkipLead(false, "..", rest);
    assert Lead(false) + ".." + rest == ".." + rest && ".."[0] == '.';
    assert up == ['\\'] + (".." + rest);
    assert |SkipSeps(".." + rest)| > 0;
    SeparatorsSkipped(dirs + [c], '\\', ".." + rest, allowWild);
    DotsGoBack(dirs + [c], rest, allowWild);
    assert (dirs + [c])[..|dirs + [c]| - 1] == dirs;
  }

  lemma SlashIs(s: string)
    requires s != "" && s[0] == '\\'
    ensures Sep(s[0]) && Sep('\\')
  {
  }

  lemma ResolveOnce(dirs: seq<string>, s: string, c: string, rest: string, name: Converted, allowWild: bool)
    requires SkipSeps(s) == c + rest && Segment(c + rest) == c && (c + rest)[|c|..] == rest && s != ""
    requires c != "." && c != ".." && c != "" && c[0] != '.' && name.Name? && Convert83(c) == name
    requires 2 + |Render(dirs)| < SFTMAX && 2 + |Render(dirs + [name.text])| <= SFTMAX
    ensures Resolve(dirs, s, false, allowWild) == Resolve(dirs + [name.text], rest, name.wild, allowWild)
  {
    hide Convert83, Segment, SkipSeps, Render, HasSep, PathError;
  }

  /** The same text, built from the left. */
  function FromLeft(dirs: seq<string>): string {
    if dirs == [] then "" else "\\" + dirs[0] + FromLeft(dirs[1..])
  }

  lemma {:induction false} FromLeftPush(dirs: seq<string>, c: string)
    ensures FromLeft(dirs + [c]) == FromLeft(dirs) + "\\" + c
  {
    if dirs == [] {
      assert ([] + [c])[1..] == [];
    } else {
      assert (dirs + [c])[1..] == dirs[1..] + [c];
      FromLeftPush(dirs[1..], c);
    }
  }

  lemma {:induction false} FromLeftIs(dirs: seq<string>)
    ensures FromLeft(dirs) == Render(dirs)
  {
    if dirs != [] {
      var init, last := dirs[..|dirs| - 1], dirs[|dirs| - 1];
      FromLeftIs(init);
      FromLeftPush(init, last);
      assert dirs == init + [last];
    }
  }

  /** A canonical path resolves to itself. */
  lemma {:induction false} ResolveAgain(pre: seq<string>, lead: bool, dirs: seq<string>, trailing: bool,
                                        allowWild: bool)
    requires dirs != [] && Canonical(pre + dirs, trailing, allowWild)
    ensures Resolve(pre, Lead(lead) + dirs[0] + FromLeft(dirs[1..]) + Lead(trailing), false, allowWild) ==
            Path(pre + dirs, trailing)
    decreases |dirs|
  {
    var c, rest := dirs[0], FromLeft(dirs[1..]) + Lead(trailing);
    assert (pre + dirs)[|pre|] == c && c in pre + dirs;
    assert Lead(lead) + c + rest == Lead(lead) + dirs[0] + FromLeft(dirs[1..]) + Lead(trailing);
    assert pre + dirs == pre + [c] + dirs[1..];
    PrefixShorter(pre + [c], dirs[1..]);
    ResolveName(pre, lead, c, rest, allowWild);
    if |dirs| == 1 {
      assert dirs[1..] == [] && rest == Lead(trailing) && pre + [c] == pre + dirs;
      LastStep(pre + dirs, trailing, '?' in c, allowWild);
    } else {
      assert (pre + dirs)[..|pre + dirs| - 1][|pre|] == c;
      assert dirs[1..][0] == dirs[1] && dirs[1..][1..] == dirs[2..];
      assert rest == Lead(true) + dirs[1..][0] + FromLeft(dirs[1..][1..]) + Lead(trailing);
      ResolveAgain(pre + [c], true, dirs[1..], trailing, allowWild);
    }
  }

  lemma LastStep(dirs: seq<string>, trailing: bool, wild: bool, allowWild: bool)
    requires wild ==> allowWild && !trailing
    requires 2 + |Render(dirs)| + (if trailing then 1 else 0) <= SFTMAX
    ensures Resolve(dirs, Lead(trailing), wild, allowWild) == Path(dirs, trailing)
  {
    if trailing {
      assert SkipSeps("\\") == "" && Segment("") == "";
    }
  }

  lemma {:induction false} PrefixShorter(a: seq<string>, b: seq<string>)
    ensures |Render(a)| <= |Render(a + b)|
  {
    if b == [] {
      assert a + b == a;
    } else {
      assert (a + b)[..|a + b| - 1] == a + b[..|b| - 1];
      PrefixShorter(a, b[..|b| - 1]);
    }
  }

  /** Upper case goes through the text. */
  lemma {:induction false} UpcaseRender(up: char -> char, dirs: seq<string>)
    requires UpcaseOk(up)
    ensures Upcased(up, Render(dirs)) == Render(UpcasedAll(up, dirs))
  {
    if dirs != [] {
      var init, last := dirs[..|dirs| - 1], dirs[|dirs| - 1];
      UpcaseRender(up, init);
      assert UpcasedAll(up, dirs)[..|dirs| - 1] == UpcasedAll(up, init);
      assert Upcased(up, Render(init) + "\\" + last) == Upcased(up, Render(init)) + "\\" + Upcased(up, last);
    }
  }

  lemma UpcaseText(up: char -> char, dirs: seq<string>, trailing: bool)
    requires UpcaseOk(up)
    ensures Upcased(up, Text(dirs, trailing)) == Text(UpcasedAll(up, dirs), trailing)
  {
    UpcaseRender(up, dirs);
    assert Upcased(up, "\\") == "\\";
    assert Upcased(up, Render(dirs) + "\\") == Upcased(up, Render(dirs)) + "\\";
    assert Upcased(up, Render(dirs) + "") == Upcased(up, Render(dirs)) + "";
  }

  lemma UpcaseCanonical(up: char -> char, dirs: seq<string>, trailing: bool, allowWild: bool)
    requires UpcaseOk(up) && Canonical(dirs, trailing, allowWild)
    ensures Canonical(UpcasedAll(up, dirs), trailing, allowWild)
    ensures UpcasedAll(up, UpcasedAll(up, dirs)) == UpcasedAll(up, dirs)
  {
    var r := UpcasedAll(up, dirs);
    UpcaseRender(up, dirs);
    forall i | 0 <= i < |dirs|
      ensures IsName83(r[i]) && ('?' in r[i] <==> '?' in dirs[i]) && Upcased(up, r[i]) == r[i] {
      assert dirs[i] in dirs;
      NameUpcased(up, dirs[i]);
    }
    if dirs != [] {
      var init := r[..|dirs| - 1];
      forall i | 0 <= i < |init| ensures '?' !in init[i] {
        assert dirs[..|dirs| - 1][i] == dirs[i];
      }
    }
    assert UpcasedAll(up, r) == r;
  }

  /** The drives' current directories are canonical. */
  ghost predicate DrivesOk(drives: Drives) {
    forall d :: d in drives ==>
        0 <= d < 26 && AllNames(drives[d]) && NoMarks(drives[d]) && 2 + |Render(drives[d])| < SFTMAX
  }

  /** Every full path is a drive and a canonical path. */
  lemma FullIsCanonical(src: string, drives: Drives, defaultDrive: int, up: char -> char, allowWild: bool)
      returns (dirs: seq<string>, trailing: bool)
    requires DrivesOk(drives) && UpcaseOk(up) && TrueName(src, drives, defaultDrive, up, allowWild).Full?
    ensures var drive := DriveOf(src, defaultDrive, up);
            drive in drives
            && TrueName(src, drives, defaultDrive, up, allowWild) == Full([Letter(drive), ':'] + Text(dirs, trailing))
    ensures Canonical(dirs, trailing, allowWild) && UpcasedAll(up, dirs) == dirs
    ensures |TrueName(src, drives, defaultDrive, up, allowWild).path| <= SFTMAX
  {
    var drive, s := DriveOf(src, defaultDrive, up), AfterDrive(src);
    var r := if Absolute(s) then Resolve([], s[1..], false, allowWild) else Resolve(drives[drive], s, false, allowWild);
    if Absolute(s) {
      ResolvedCanonical([], s[1..], false, allowWild);
    } else {
      ResolvedCanonical(drives[drive], s, false, allowWild);
    }
    dirs, trailing := UpcasedAll(up, r.dirs), r.trailing;
    UpcaseText(up, r.dirs, trailing);
    UpcaseCanonical(up, r.dirs, trailing, allowWild);
    TextLength(dirs, trailing);
  }

  /** What the drive letter, or its absence, and the first separator decide, written out: the drive, and whether the
      path starts at its root or in its current directory. */
  lemma Plainly(src: string, drives: Drives, defaultDrive: int, up: char -> char, allowWild: bool)
    requires DrivesOk(drives)
    ensures src == "" ==> TrueName(src, drives, defaultDrive, up, allowWild) == Error(-2)
    ensures |src| > 1 && src[0] == '\\' && src[1] == '\\' ==>
              TrueName(src, drives, defaultDrive, up, allowWild) == if |src| < 128 then Network(src) else Error(-3)
    ensures src != "" && !(|src| > 1 && src[0] == '\\' && src[1] == '\\') ==>
              var lettered := |src| > 1 && src[1] == ':';
              var drive := if lettered then (up(src[0]) as int - 65) % 256 else defaultDrive;
              var k := if lettered then 2 else 0;
              var absolute := k < |src| && (src[k] == '\\' || src[k] == '/');
              var a := TrueName(src, drives, defaultDrive, up, allowWild);
              if drive !in drives then a == Error(-3)
              else
                var start := if absolute then [] else drives[drive];
                match Resolve(start, src[if absolute then k + 1 else k..], false, allowWild)
                case Fail(code) => a == Error(code)
                case Path(dirs, trailing) =>
                  0 <= drive < 26 && a == Full([(65 + drive) as char, ':'] + Upcased(up, Text(dirs, trailing)))
  {
    hide Resolve, Text, Upcased;
  }

  lemma TextLength(dirs: seq<string>, trailing: bool)
    ensures |Text(dirs, trailing)| == if dirs == [] then 1 else |Render(dirs)| + if trailing then 1 else 0
  {
  }

  /** A full path stands for itself, and so does a UNC path. */
  lemma Idempotent(src: string, drives: Drives, defaultDrive: int, up: char -> char, allowWild: bool)
    requires DrivesOk(drives) && UpcaseOk(up) && !TrueName(src, drives, defaultDrive, up, allowWild).Error?
    ensures var full := TrueName(src, drives, defaultDrive, up, allowWild);
            TrueName(full.path, drives, defaultDrive, up, allowWild) == full
  {
    if TrueName(src, drives, defaultDrive, up, allowWild).Full? {
      var dirs, trailing := FullIsCanonical(src, drives, defaultDrive, up, allowWild);
      var drive := DriveOf(src, defaultDrive, up);
      var text := Text(dirs, trailing);
      var path := [Letter(drive), ':'] + text;
      SameDrive(up, drive, path);
      assert AfterDrive(path) == text;
      UpcaseText(up, dirs, trailing);
      TextResolves(dirs, trailing, allowWild);
    }
  }

  lemma SameDrive(up: char -> char, drive: int, path: string)
    requires UpcaseOk(up) && 0 <= drive < 26 && |path| > 1 && path[0] == Letter(drive) && path[1] == ':'
    ensures DriveOf(path, drive, up) == drive && forall d: int :: DriveOf(path, d, up) == drive
  {
  }

  /** The text of a canonical path is absolute and resolves to that path. */
  lemma TextResolves(dirs: seq<string>, trailing: bool, allowWild: bool)
    requires Canonical(dirs, trailing, allowWild)
    ensures var text := Text(dirs, trailing);
            && Absolute(text)
            && var r := Resolve([], text[1..], false, allowWild);
               r.Path? && Text(r.dirs, r.trailing) == text && r.dirs == dirs
  {
    var text := Text(dirs, trailing);
    if dirs != [] {
      FromLeftIs(dirs);
      assert text == "\\" + dirs[0] + FromLeft(dirs[1..]) + Lead(trailing);
      assert text[1..] == Lead(false) + dirs[0] + FromLeft(dirs[1..]) + Lead(trailing);
      assert [] + dirs == dirs;
      ResolveAgain([], false, dirs, trailing, allowWild);
    }
  }
}
