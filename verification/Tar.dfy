/** The ustar records that the initial file system comes in, and what an archive of them means. */
module Tar {
  import opened BitStream
  import opened Paths
  import opened FileTree

  const RECORD: nat := 512
  const USTAR: seq<byte> := [117, 115, 116, 97, 114]
  const NAME_SIZE: nat := 100
  const MODE_AT: nat := 100
  const SIZE_AT: nat := 124
  const TYPE_AT: nat := 156
  const MAGIC_AT: nat := 257
  const MAX_CONTENT: nat := 0xFFFF_F000

  // ---------------------------------------------------------------------------- octal

  /** The value of digits, modulo 2^32 as an unsigned int. */
  function Oct(digits: seq<byte>): (n: nat)
    ensures n < 0x1_0000_0000
  {
    if digits == [] then 0 else (Oct(digits[..|digits| - 1]) * 8 + digits[|digits| - 1] - 48) % 0x1_0000_0000
  }

  /** k octal digits. */
  function OctDigits(n: nat, k: nat): (digits: seq<byte>)
    ensures |digits| == k
  {
    if k == 0 then [] else OctDigits(n / 8, k - 1) + [48 + n % 8]
  }

  /** n has at most k octal digits. */
  predicate FitsOctal(n: nat, k: nat) {
    if k == 0 then n == 0 else FitsOctal(n / 8, k - 1)
  }

  lemma {:induction false} OctOfDigits(n: nat, k: nat)
    requires FitsOctal(n, k) && n < 0x1_0000_0000
    ensures Oct(OctDigits(n, k)) == n
  {
    if k > 0 {
      OctOfDigits(n / 8, k - 1);
      assert OctDigits(n, k)[..k - 1] == OctDigits(n / 8, k - 1);
    }
  }

  /** A digit is three bits. */
  lemma OctStep(digits: seq<byte>, d: byte)
    requires 48 <= d < 56 && Oct(digits) < 0x2000_0000
    ensures Oct(digits + [d]) == Scale(Oct(digits), 3) + (d - 48) && Oct([]) == 0
  {
    assert (digits + [d])[..|digits|] == digits;
    assert Oct(digits + [d]) == (Oct(digits) * 8 + d - 48) % 0x1_0000_0000;
    ThreeBits(Oct(digits));
  }

  lemma ThreeBits(x: nat)
    ensures Scale(x, 3) == 8 * x
  {
    assert Scale(x, 3) == 2 * Scale(x, 2);
    assert Scale(x, 2) == 2 * Scale(x, 1);
    assert Scale(x, 1) == 2 * Scale(x, 0);
  }

  // --------------------------------------------------------------------------- records

  /** The string at off, up to its NUL. */
  function CString(mem: seq<byte>, off: nat): (s: seq<byte>)
    ensures 0 !in s
    decreases |mem| - off
  {
    if off >= |mem| || mem[off] == 0 then [] else [mem[off]] + CString(mem, off + 1)
  }

  lemma {:induction false} CStringIs(mem: seq<byte>, off: nat, s: seq<byte>)
    requires off + |s| < |mem| && mem[off .. off + |s|] == s && mem[off + |s|] == 0 && 0 !in s
    ensures CString(mem, off) == s
    decreases |s|
  {
    if s != [] {
      assert mem[off] == s[0];
      assert mem[off + 1 .. off + 1 + |s[1..]|] == s[1..];
      CStringIs(mem, off + 1, s[1..]);
    }
  }

  /** A string that ends inside of mem ends in a NUL. */
  lemma {:induction false} CStringEnds(mem: seq<byte>, off: nat)
    ensures var end := off + |CString(mem, off)|; end < |mem| ==> mem[end] == 0
    decreases |mem| - off
  {
    if off < |mem| && mem[off] != 0 {
      CStringEnds(mem, off + 1);
    }
  }

  /** What fills the last record of size bytes: -size % 512, in 32 bits. */
  function Padding(size: nat): nat
    requires size < 0x1_0000_0000
  {
    (0x1_0000_0000 - size) % 0x1_0000_0000 % RECORD
  }

  lemma PaddingFills(size: nat)
    requires size < 0x1_0000_0000
    ensures Padding(size) < RECORD && (size + Padding(size)) % RECORD == 0
  {
  }

  datatype Entry = ArchiveDir(path: Path) | ArchiveFile(path: Path, content: seq<byte>)

  /** The name in the header: below initrd, with a slash at the end of a directory's. */
  function HeaderName(e: Entry): seq<byte> {
    Join([INITRD] + e.path + if e.ArchiveDir? then [[]] else [])
  }

  /** Such as initrd/a/b for a file, and initrd/a/ for a directory. */
  lemma HeaderNames(content: seq<byte>)
    ensures HeaderName(ArchiveFile([[97], [98]], content)) == [105, 110, 105, 116, 114, 100, 47, 97, 47, 98]
    ensures HeaderName(ArchiveDir([[97]])) == [105, 110, 105, 116, 114, 100, 47, 97, 47]
    ensures DOT == [46] && DOTDOT == [46, 46]
  {
    var a: Name, b: Name := [97], [98];
    JoinCons(INITRD, [a] + [b]);
    JoinCons(a, [b]);
    JoinCons(INITRD, [a] + [[]]);
    JoinCons(a, [[]]);
    assert Join([b]) == b && Join([[]]) == [];
    assert [INITRD] + [[97], [98]] + [] == [INITRD] + ([a] + [b]);
    assert [INITRD] + [[97]] + [[]] == [INITRD] + ([a] + [[]]);
  }

  function Content(e: Entry): seq<byte> {
    if e.ArchiveFile? then e.content else []
  }

  /** A header record for e at off, and the content behind it. */
  ghost predicate HeaderAt(mem: seq<byte>, off: nat, e: Entry) {
    var name, size := HeaderName(e), |Content(e)|;
    |name| < NAME_SIZE && size < 0x1_0000_0000 && FitsOctal(size, 11) && off + RECORD + size <= |mem| &&
    mem[off .. off + |name|] == name && mem[off + |name|] == 0 &&
    mem[off + SIZE_AT .. off + SIZE_AT + 11] == OctDigits(size, 11) &&
    mem[off + TYPE_AT] == (if e.ArchiveFile? then 48 else 53) &&
    mem[off + MAGIC_AT .. off + MAGIC_AT + 5] == USTAR &&
    mem[off + RECORD .. off + RECORD + size] == Content(e)
  }

  function Next(off: nat, size: nat): nat
    requires size < 0x1_0000_0000
  {
    off + RECORD + Padding(size) + size
  }

  predicate IsHeader(mem: seq<byte>, off: nat) {
    off + RECORD <= |mem| && mem[off + MAGIC_AT .. off + MAGIC_AT + 5] == USTAR
  }

  /** The records of es from off on; then the archive ends, or no header follows. */
  ghost predicate ArchiveAt(mem: seq<byte>, off: nat, end: nat, es: seq<Entry>)
    decreases |es|
  {
    if es == [] then off > end || !IsHeader(mem, off)
    else off <= end && HeaderAt(mem, off, es[0]) && ArchiveAt(mem, Next(off, |Content(es[0])|), end, es[1..])
  }

  // --------------------------------------------------------------------------- meaning

  /** The directories that es makes, and the root. */
  function DirsIn(es: seq<Entry>): set<Path> {
    if es == [] then {[]} else
      DirsIn(es[..|es| - 1]) + if es[|es| - 1].ArchiveDir? then {es[|es| - 1].path} else {}
  }

  function FilesIn(es: seq<Entry>): map<Path, seq<byte>> {
    if es == [] then map[] else
      var before := FilesIn(es[..|es| - 1]);
      if es[|es| - 1].ArchiveFile? then before[es[|es| - 1].path := es[|es| - 1].content] else before
  }

  function Parent(e: Entry): Path {
    if e.path == [] then [] else e.path[..|e.path| - 1]
  }

  /** How many directories, and how many files, es puts into p. */
  function DirCount(es: seq<Entry>, p: Path): nat {
    if es == [] then 0 else
      DirCount(es[..|es| - 1], p) + if es[|es| - 1].ArchiveDir? && Parent(es[|es| - 1]) == p then 1 else 0
  }

  function FileCount(es: seq<Entry>, p: Path): nat {
    if es == [] then 0 else
      FileCount(es[..|es| - 1], p) + if es[|es| - 1].ArchiveFile? && Parent(es[|es| - 1]) == p then 1 else 0
  }

  /** e may follow es: its name is clean and new, its parent has come before and has room. */
  ghost predicate MayFollow(es: seq<Entry>, e: Entry) {
    e.path != [] && CleanPath(e.path) && Parent(e) in DirsIn(es) &&
    if e.ArchiveDir? then e.path !in DirsIn(es) && 2 + DirCount(es, Parent(e)) < MAX_DIRECTORIES
    else e.path !in FilesIn(es) && FileCount(es, Parent(e)) < MAX_FILES && 0 < |e.content| <= MAX_CONTENT
  }

  /** Parents first, distinct clean names, non-empty files, nothing over the limits. */
  ghost predicate WellFormed(es: seq<Entry>) {
    forall i | 0 <= i < |es| :: MayFollow(es[..i], es[i])
  }
}
