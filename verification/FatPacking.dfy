/** How kernel/fattab.c packs FAT entries of 12, 16 and 32 bits into bytes, shown to be
    an array of entries (FAT32 File System Specification 1.03, "FAT Data Structure"). */
module FatPacking {

  import opened Arith

  const FREE: nat := 0
  const LONG_BAD: nat := 0x0FFF_FFF7
  const LONG_LAST_CLUSTER: nat := 0x0FFF_FFFF
  const MASK12: nat := 0xFF8
  const BAD12: nat := 0xFF7
  const MASK16: nat := 0xFFF8
  const BAD16: nat := 0xFFF7

  /** The marks, for proofs in which definitions are hidden. */
  lemma EndMarks()
    ensures FREE == 0 && LONG_BAD == 0x0FFF_FFF7 && LONG_LAST_CLUSTER == 0x0FFF_FFFF
  {
  }

  datatype Kind = Fat12 | Fat16 | Fat32

  /** First byte of entry `c`. */
  function Offset(kind: Kind, c: nat): nat {
    match kind
    case Fat12 => 3 * c / 2
    case Fat16 => 2 * c
    case Fat32 => 4 * c
  }

  function Width(kind: Kind): nat {
    if kind == Fat32 then 4 else 2
  }

  predicate Fits(kind: Kind, size: nat, c: nat) {
    Offset(kind, c) + Width(kind) <= size
  }

  /** The twelve bits of entry `c` in the word that holds them. */
  function Unpack12(c: nat, w: nat): nat {
    if c % 2 == 1 then w / 16 else w % 0x1000
  }

  /** That word with other twelve bits in it. */
  function Pack12(c: nat, w: nat, x: nat): nat {
    if c % 2 == 1 then w % 16 + 16 * x else w / 0x1000 * 0x1000 + x
  }

  lemma Pack12Word(c: nat, w: nat, x: nat)
    requires w < 0x1_0000 && x < 0x1000
    ensures Pack12(c, w, x) < 0x1_0000
  {
  }

  /** The bits of entry `c`. */
  function Raw(kind: Kind, img: seq<byte>, c: nat): nat
    requires Fits(kind, |img|, c)
  {
    var o := Offset(kind, c);
    match kind
    case Fat12 => Unpack12(c, Word(img[o], img[o + 1]))
    case Fat16 => Word(img[o], img[o + 1])
    case Fat32 => Long(img[o], img[o + 1], img[o + 2], img[o + 3])
  }

  /** What the kernel makes of these bits. */
  function Decode(kind: Kind, raw: nat): nat {
    match kind
    case Fat12 => if raw >= MASK12 then LONG_LAST_CLUSTER else if raw == BAD12 then LONG_BAD else raw
    case Fat16 => if raw >= MASK16 then LONG_LAST_CLUSTER else if raw == BAD16 then LONG_BAD else raw
    case Fat32 => (var res := raw % 0x1000_0000; if res > LONG_BAD then LONG_LAST_CLUSTER else res)
  }

  /** Bits stand for a free entry just when the ones that count are all zero. */
  lemma DecodeFree(kind: Kind, raw: nat)
    ensures Decode(kind, raw) == FREE <==> (if kind == Fat32 then raw % 0x1000_0000 else raw) == 0
  {
  }

  lemma ZeroWords()
    ensures Word(0, 0) == 0 && Long(0, 0, 0, 0) == 0
  {
  }

  lemma ZeroBits(c: nat)
    ensures Unpack12(c, 0) == 0
  {
  }

  function Read(kind: Kind, img: seq<byte>, c: nat): nat
    requires Fits(kind, |img|, c)
  {
    Decode(kind, Raw(kind, img, c))
  }

  /** The bits that a value is cut down to when written. */
  function Cut(kind: Kind, v: nat): nat {
    match kind
    case Fat12 => v % 0x1000
    case Fat16 => v % 0x1_0000
    case Fat32 => v % 0x1000_0000
  }

  /** What a written value reads back as. */
  function Canon(kind: Kind, v: nat): nat {
    Decode(kind, Cut(kind, v))
  }

  /** The bytes after entry `c` was written. */
  function Write(kind: Kind, img: seq<byte>, c: nat, v: nat): (r: seq<byte>)
    requires Fits(kind, |img|, c)
    ensures |r| == |img|
  {
    var o := Offset(kind, c);
    var x := Cut(kind, v);
    match kind
    case Fat12 =>
      (var n := Pack12(c, Word(img[o], img[o + 1]), x);
      Pack12Word(c, Word(img[o], img[o + 1]), x);
      img[o := n % 256][o + 1 := n / 256])
    case Fat16 => img[o := x % 256][o + 1 := x / 256]
    case Fat32 => img[o := x % 256][o + 1 := x / 256 % 256][o + 2 := x / 0x1_0000 % 256][o + 3 := x / 0x100_0000]
  }

  /** Values the kernel writes: free, bad, last, or the number of a cluster. */
  predicate Storable(kind: Kind, v: nat) {
    || v in {FREE, LONG_BAD, LONG_LAST_CLUSTER}
    || 2 <= v < match kind case Fat12 => BAD12 case Fat16 => BAD16 case Fat32 => LONG_BAD
  }

  lemma SmallMod(v: nat, m: nat)
    requires v < m
    ensures v % m == v
  {
    DivModUnique(v, m, 0, v);
  }

  /** Splitting a number into bytes loses nothing. */
  lemma WordParts(x: nat)
    requires x < 0x1_0000
    ensures Word(x % 256, x / 256) == x
  {
  }

  lemma LongParts(x: nat)
    requires x < 0x1_0000_0000
    ensures Long(x % 256, x / 256 % 256, x / 0x1_0000 % 256, x / 0x100_0000) == x
  {
    var y := x / 256;
    var z := y / 256;
    var t := z / 256;
    assert x == 256 * y + x % 256 && y == 256 * z + y % 256 && z == 256 * t + z % 256;
    DivModUnique(x, 0x1_0000, z, 256 * (y % 256) + x % 256);
    DivModUnique(x, 0x100_0000, t, 0x1_0000 * (z % 256) + 256 * (y % 256) + x % 256);
  }

  lemma RawBack(kind: Kind, img: seq<byte>, c: nat, v: nat)
    requires Fits(kind, |img|, c)
    ensures Raw(kind, Write(kind, img, c, v), c) == Cut(kind, v)
  {
    var o, x := Offset(kind, c), Cut(kind, v);
    match kind
    case Fat12 => OddNibbles(Word(img[o], img[o + 1]), x); EvenNibbles(Word(img[o], img[o + 1]), x);
    case Fat16 => WordParts(x);
    case Fat32 => LongParts(x);
  }

  lemma LowNibble(n: nat)
    ensures n % 256 % 16 == n % 16 && n / 256 / 16 == n / 0x1000
  {
    var a, b := n / 256, n % 256;
    assert n == 256 * a + b && b == 16 * (b / 16) + b % 16 && a == 16 * (a / 16) + a % 16;
    DivModUnique(n, 16, 16 * a + b / 16, b % 16);
    DivModUnique(n, 0x1000, a / 16, 256 * (a % 16) + b);
  }

  /** Twelve bits above a kept nibble. */
  lemma OddNibbles(w: nat, x: nat)
    requires w < 0x1_0000 && x < 0x1000
    ensures var n := w % 16 + 16 * x;
            n < 0x1_0000 && Word(n % 256, n / 256) / 16 == x && n % 256 % 16 == w % 256 % 16
  {
    var n := w % 16 + 16 * x;
    DivModUnique(n, 16, x, w % 16);
    WordParts(n);
    LowNibble(n);
    LowNibble(w);
  }

  /** Twelve bits below a kept nibble. */
  lemma EvenNibbles(w: nat, x: nat)
    requires w < 0x1_0000 && x < 0x1000
    ensures var n := w / 0x1000 * 0x1000 + x;
            n < 0x1_0000 && Word(n % 256, n / 256) % 0x1000 == x && n / 256 / 16 == w / 256 / 16
  {
    var n := w / 0x1000 * 0x1000 + x;
    DivModUnique(n, 0x1000, w / 0x1000, x);
    WordParts(n);
    LowNibble(n);
    LowNibble(w);
  }

  lemma WordBytes(b0: byte, b1: byte)
    ensures 0 <= Word(b0, b1) < 0x1_0000 && Word(b0, b1) % 256 == b0 && Word(b0, b1) / 256 == b1
  {
    DivModUnique(Word(b0, b1), 256, b1, b0);
  }

  /** A value written to an entry reads back as itself; anything else as its canonical form. */
  lemma ReadBack(kind: Kind, img: seq<byte>, c: nat, v: nat)
    requires Fits(kind, |img|, c)
    ensures Read(kind, Write(kind, img, c, v), c) == Canon(kind, v)
    ensures Storable(kind, v) ==> Read(kind, Write(kind, img, c, v), c) == v
  {
    hide Raw, Write, Offset, Width, Storable, Cut, Decode;
    RawBack(kind, img, c, v);
    if Storable(kind, v) {
      StorableCanon(kind, v);
    }
  }

  lemma StorableCanon(kind: Kind, v: nat)
    requires Storable(kind, v)
    ensures Canon(kind, v) == v
  {
    match kind
    case Fat12 => SmallMod(if v == LONG_LAST_CLUSTER then 0xFFF else if v == LONG_BAD then BAD12 else v, 0x1000);
    case Fat16 => SmallMod(if v == LONG_LAST_CLUSTER then 0xFFFF else if v == LONG_BAD then BAD16 else v, 0x1_0000);
    case Fat32 => SmallMod(v, 0x1000_0000);
  }

  /** Twelve-bit entries next to each other share one byte, of which each keeps its half. */
  lemma Neighbour12(img: seq<byte>, c: nat, v: nat, d: nat)
    requires Fits(Fat12, |img|, c) && Fits(Fat12, |img|, d) && (d == c + 1 || c == d + 1)
    ensures Raw(Fat12, Write(Fat12, img, c, v), d) == Raw(Fat12, img, d)
  {
    if c % 2 == 1 {
      OddNeighbour(img, c, v, d);
    } else {
      EvenNeighbour(img, c, v, d);
    }
  }

  /** Where two neighbours lie when the lower one is odd, or even. */
  lemma Offsets12(c: nat)
    ensures Offset(Fat12, c + 1) == Offset(Fat12, c) + if c % 2 == 1 then 2 else 1
  {
    var k := c / 2;
    assert c == 2 * k + c % 2;
    DivModUnique(3 * c, 2, 3 * k + c % 2, c % 2);
    DivModUnique(3 * (c + 1), 2, 3 * k + 1 + 2 * (c % 2), 1 - c % 2);
  }

  lemma OddNeighbour(img: seq<byte>, c: nat, v: nat, d: nat)
    requires Fits(Fat12, |img|, c) && Fits(Fat12, |img|, d) && (d == c + 1 || c == d + 1) && c % 2 == 1
    ensures Raw(Fat12, Write(Fat12, img, c, v), d) == Raw(Fat12, img, d)
  {
    hide Offset, Cut, Word;
    var o := Offset(Fat12, c);
    CutRange(v);
    WordBytes(img[o], img[o + 1]);
    OddNibbles(Word(img[o], img[o + 1]), Cut(Fat12, v));
    Parity(c, d);
    if c == d + 1 {
      Offsets12(d);
      LowTwelve(img[o - 1], img[o], Write(Fat12, img, c, v)[o]);
    } else {
      Offsets12(c);
    }
  }

  lemma Parity(c: nat, d: nat)
    requires d == c + 1 || c == d + 1
    ensures c % 2 == 1 <==> d % 2 == 0
  {
  }

  lemma CutRange(v: nat)
    ensures Cut(Fat12, v) < 0x1000
  {
  }

  lemma EvenNeighbour(img: seq<byte>, c: nat, v: nat, d: nat)
    requires Fits(Fat12, |img|, c) && Fits(Fat12, |img|, d) && (d == c + 1 || c == d + 1) && c % 2 == 0
    ensures Raw(Fat12, Write(Fat12, img, c, v), d) == Raw(Fat12, img, d)
  {
    hide Offset, Cut, Word;
    var o := Offset(Fat12, c);
    CutRange(v);
    WordBytes(img[o], img[o + 1]);
    EvenNibbles(Word(img[o], img[o + 1]), Cut(Fat12, v));
    Parity(c, d);
    if d == c + 1 {
      Offsets12(c);
      HighTwelve(img[o + 1], Write(Fat12, img, c, v)[o + 1], img[o + 2]);
    } else {
      Offsets12(d);
    }
  }

  lemma LowTwelve(a: byte, b: byte, b': byte)
    requires b' % 16 == b % 16
    ensures Word(a, b') % 0x1000 == Word(a, b) % 0x1000
  {
    DivModUnique(Word(a, b), 0x1000, b / 16, a + 256 * (b % 16));
    DivModUnique(Word(a, b'), 0x1000, b' / 16, a + 256 * (b' % 16));
  }

  lemma HighTwelve(a: byte, a': byte, b: byte)
    requires a' / 16 == a / 16
    ensures Word(a', b) / 16 == Word(a, b) / 16
  {
    DivModUnique(Word(a, b), 16, a / 16 + 16 * b, a % 16);
    DivModUnique(Word(a', b), 16, a' / 16 + 16 * b, a' % 16);
  }

  /** Writing one entry leaves every other as it was, also where they share a byte. */
  lemma OthersKept(kind: Kind, img: seq<byte>, c: nat, v: nat, d: nat)
    requires Fits(kind, |img|, c) && Fits(kind, |img|, d) && c != d
    ensures Raw(kind, Write(kind, img, c, v), d) == Raw(kind, img, d)
  {
    var o, p := Offset(kind, c), Offset(kind, d);
    if kind == Fat12 {
      if d == c + 1 || c == d + 1 {
        Neighbour12(img, c, v, d);
      } else {
        assert p > o + 1 || o > p + 1;
      }
    }
  }

  /** The FAT32 entry's four reserved high bits survive a write just when they were zero;
      the specification wants them kept. */
  lemma ReservedBits(img: seq<byte>, c: nat, v: nat)
    requires Fits(Fat32, |img|, c)
    ensures var was, now := Raw(Fat32, img, c), Raw(Fat32, Write(Fat32, img, c, v), c);
            now / 0x1000_0000 == was / 0x1000_0000 <==> was < 0x1000_0000
  {
    hide Raw, Write, Offset;
    RawBack(Fat32, img, c, v);
    HighBits(Raw(Fat32, img, c), v);
  }

  lemma HighBits(was: nat, v: nat)
    ensures v % 0x1000_0000 / 0x1000_0000 == 0 && (was / 0x1000_0000 == 0 <==> was < 0x1000_0000)
  {
  }
}
