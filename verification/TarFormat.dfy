/** How tar writes an archive: a header is its fields one after the other, each filled up to its width,
    and is followed by the content, filled up to whole records. Nothing here knows where a field begins.
 */
module TarFormat {
  import opened BitStream
  import opened FileTree
  import opened Tar

  /** The fields of a header that the loader has no use for, but for the mode; their digits or letters. */
  datatype Others = Others(mode: seq<byte>, uid: seq<byte>, gid: seq<byte>, mtime: seq<byte>, checksum: seq<byte>, linked: seq<byte>,
                           version: seq<byte>, ownerName: seq<byte>, groupName: seq<byte>, deviceMajor: seq<byte>,
                           deviceMinor: seq<byte>, prefix: seq<byte>)

  predicate Fit(o: Others) {
    |o.mode| <= 8 && |o.uid| <= 8 && |o.gid| <= 8 && |o.mtime| <= 12 && |o.checksum| <= 8 && |o.linked| <= 100 &&
    |o.version| <= 2 && |o.ownerName| <= 32 && |o.groupName| <= 32 && |o.deviceMajor| <= 8 && |o.deviceMinor| <= 8 && |o.prefix| <= 155
  }

  function Zeros(n: nat): (s: seq<byte>)
    ensures |s| == n
  {
    seq(n, i => 0)
  }

  /** A value in a field of some width. */
  function Field(value: seq<byte>, width: nat): (s: seq<byte>)
    requires |value| <= width
    ensures |s| == width && value <= s
  {
    value + Zeros(width - |value|)
  }

  /** What can be written: the name leaves room for a NUL, and the size has eleven digits. */
  predicate Writable(e: Entry) {
    |HeaderName(e)| < 100 && |Content(e)| < 0x1_0000_0000
  }

  /** 0 for a file, 5 for a directory. */
  function Kind(e: Entry): byte {
    if e.ArchiveFile? then 48 else 53
  }

  /** filename, mode, uid, gid, size, mtime, checksum, typeflag, linked, magic, version, owner and group,
      device numbers, prefix. */
  function Header(e: Entry, o: Others): (h: seq<byte>)
    requires Writable(e) && Fit(o)
    ensures |h| == 512
  {
    Field(HeaderName(e), 100) + Ids(o) + Field(OctDigits(|Content(e)|, 11), 12) + Times(o) + [Kind(e)] + Field(o.linked, 100) +
    Field([117, 115, 116, 97, 114], 6) + Owners(o)
  }

  function Ids(o: Others): seq<byte>
    requires Fit(o)
  {
    Field(o.mode, 8) + Field(o.uid, 8) + Field(o.gid, 8)
  }

  function Times(o: Others): seq<byte>
    requires Fit(o)
  {
    Field(o.mtime, 12) + Field(o.checksum, 8)
  }

  function Owners(o: Others): seq<byte>
    requires Fit(o)
  {
    Field(o.version, 2) + Field(o.ownerName, 32) + Field(o.groupName, 32) + Field(o.deviceMajor, 8) + Field(o.deviceMinor, 8) +
    Field(o.prefix, 155) + Zeros(12)
  }

  /** An entry with its content, in whole records. */
  function Written(e: Entry, o: Others): seq<byte>
    requires Writable(e) && Fit(o)
  {
    Header(e, o) + Content(e) + Zeros((512 - |Content(e)| % 512) % 512)
  }

  predicate AllWritable(es: seq<Entry>, os: seq<Others>) {
    |os| == |es| && forall i | 0 <= i < |es| :: Writable(es[i]) && Fit(os[i])
  }

  function WrittenAll(es: seq<Entry>, os: seq<Others>): seq<byte>
    requires AllWritable(es, os)
  {
    if es == [] then [] else Written(es[0], os[0]) + WrittenAll(es[1..], os[1..])
  }

  /** Memory holds a first record, the entries, and then at least one record of zeros; end is behind the
      entries. */
  ghost predicate Archive(mem: seq<byte>, end: nat, es: seq<Entry>, os: seq<Others>, first: seq<byte>, rest: seq<byte>) {
    AllWritable(es, os) && |first| == 512 && mem == first + WrittenAll(es, os) + Zeros(512) + rest &&
    512 + |WrittenAll(es, os)| <= end <= |mem| - 512
  }

  // ------------------------------------------------------------------------- it is read back

  lemma Part(a: seq<byte>, b: seq<byte>, c: seq<byte>, s: seq<byte>)
    requires s == a + b + c
    ensures s[|a| .. |a| + |b|] == b
  {
  }

  lemma Inner(mem: seq<byte>, off: nat, s: seq<byte>, i: nat, j: nat)
    requires off + |s| <= |mem| && mem[off .. off + |s|] == s && i <= j <= |s|
    ensures mem[off + i .. off + j] == s[i..j]
  {
    forall k: nat | k < j - i ensures mem[off + i .. off + j][k] == s[i..j][k] {
      assert mem[off .. off + |s|][i + k] == mem[off + (i + k)];
    }
  }

  lemma Prefix(s: seq<byte>, value: seq<byte>, i: nat, width: nat)
    requires i + width <= |s| && |value| <= width && s[i .. i + width] == Field(value, width)
    ensures s[i .. i + |value|] == value
    ensures |value| < width ==> s[i + |value|] == 0
  {
    assert s[i .. i + |value|] == s[i .. i + width][..|value|];
    if |value| < width {
      assert s[i + |value|] == s[i .. i + width][|value|];
    }
  }

  /** Where parts of these lengths begin. */
  lemma PartsAt(name: seq<byte>, mode: seq<byte>, ids: seq<byte>, size: seq<byte>, times: seq<byte>, kind: byte, linked: seq<byte>,
                magic: seq<byte>, rest: seq<byte>, h: seq<byte>)
    requires h == name + (mode + ids) + size + times + [kind] + linked + magic + rest
    requires |name| == 100 && |mode| == 8 && |ids| == 16 && |size| == 12 && |times| == 20 && |linked| == 100 && |magic| == 6
    ensures |h| >= 263 && h[..100] == name && h[100..108] == mode && h[124..136] == size && h[156] == kind && h[257..263] == magic
  {
    assert h == name + mode + (ids + size + times + [kind] + linked + magic + rest);
    assert h == (name + mode + ids) + size + (times + [kind] + linked + magic + rest);
    assert h == (name + mode + ids + size + times + [kind] + linked) + magic + rest;
  }

  lemma HeaderParts(e: Entry, o: Others)
    requires Writable(e) && Fit(o)
    ensures var h := Header(e, o);
            h[..100] == Field(HeaderName(e), 100) && h[100..108] == Field(o.mode, 8) && h[124..136] == Field(OctDigits(|Content(e)|, 11), 12) &&
            h[156] == Kind(e) && h[257..263] == Field([117, 115, 116, 97, 114], 6)
  {
    hide HeaderName, OctDigits, Content, Field, Kind, Owners;
    assert Ids(o) == Field(o.mode, 8) + (Field(o.uid, 8) + Field(o.gid, 8));
    PartsAt(Field(HeaderName(e), 100), Field(o.mode, 8), Field(o.uid, 8) + Field(o.gid, 8), Field(OctDigits(|Content(e)|, 11), 12), Times(o),
            Kind(e), Field(o.linked, 100), Field([117, 115, 116, 97, 114], 6), Owners(o), Header(e, o));
  }

  function Pow8(k: nat): nat {
    if k == 0 then 1 else 8 * Pow8(k - 1)
  }

  lemma {:induction false} EnoughDigits(n: nat, k: nat)
    requires n < Pow8(k)
    ensures FitsOctal(n, k)
  {
    if k > 0 {
      EnoughDigits(n / 8, k - 1);
    }
  }

  lemma ElevenDigits(n: nat)
    requires n < 0x1_0000_0000
    ensures FitsOctal(n, 11)
  {
    assert Pow8(3) == 512;
    assert Pow8(6) == 262144;
    assert Pow8(9) == 134217728;
    assert Pow8(11) == 8589934592;
    EnoughDigits(n, 11);
  }

  /** The fields of a header that lies at off. */
  lemma HeaderIsRead(mem: seq<byte>, off: nat, e: Entry, o: Others)
    requires Writable(e) && Fit(o) && off + 512 <= |mem| && mem[off .. off + 512] == Header(e, o)
    ensures mem[off .. off + |HeaderName(e)|] == HeaderName(e) && mem[off + |HeaderName(e)|] == 0
    ensures mem[off + 100 .. off + 108] == Field(o.mode, 8) && mem[off + 124 .. off + 135] == OctDigits(|Content(e)|, 11)
    ensures mem[off + 156] == Kind(e) && mem[off + 257 .. off + 262] == [117, 115, 116, 97, 114]
  {
    HeaderParts(e, o);
    hide Header, HeaderName, OctDigits, Content, Kind, Field;
    var h := Header(e, o);
    Inner(mem, off, h, 0, 100);
    Inner(mem, off, h, 100, 108);
    Inner(mem, off, h, 124, 136);
    Inner(mem, off, h, 257, 263);
    assert mem[off + 156] == mem[off .. off + 512][156];
    Prefix(mem, HeaderName(e), off, 100);
    Prefix(mem, OctDigits(|Content(e)|, 11), off + 124, 12);
    Prefix(mem, [117, 115, 116, 97, 114], off + 257, 6);
  }

  lemma WrittenParts(e: Entry, o: Others)
    requires Writable(e) && Fit(o)
    ensures var w, n := Written(e, o), |Content(e)|;
            |w| == 512 + n + Padding(n) && w[..512] == Header(e, o) && w[512 .. 512 + n] == Content(e)
  {
    hide Header, Content;
    PaddingSame(|Content(e)|);
    assert Written(e, o) == Header(e, o) + Content(e) + Zeros((512 - |Content(e)| % 512) % 512);
  }

  lemma PaddingSame(n: nat)
    requires n < 0x1_0000_0000
    ensures Padding(n) == (512 - n % 512) % 512
  {
    var m := n % 512;
    assert n == 512 * (n / 512) + m;
    assert 0x1_0000_0000 - n == 512 * (0x80_0000 - n / 512) - m;
  }

  /** What tar has written is what the loader takes for the record of that entry, whatever the other
      fields hold; the next record follows, and the mode is the one of its field. */
  lemma WrittenIsRead(mem: seq<byte>, off: nat, e: Entry, o: Others)
    requires Writable(e) && Fit(o) && off + |Written(e, o)| <= |mem| && mem[off .. off + |Written(e, o)|] == Written(e, o)
    ensures HeaderAt(mem, off, e) && |Content(e)| < 0x1_0000_0000 && Next(off, |Content(e)|) == off + |Written(e, o)|
    ensures off + RECORD <= |mem| && mem[off + MODE_AT .. off + MODE_AT + 8] == Field(o.mode, 8)
  {
    var w, n := Written(e, o), |Content(e)|;
    WrittenParts(e, o);
    hide Written, Header, HeaderName, OctDigits, Content, FitsOctal, Padding, Field;
    Inner(mem, off, w, 0, 512);
    Inner(mem, off, w, 512, 512 + n);
    HeaderIsRead(mem, off, e, o);
    ElevenDigits(n);
  }

  lemma FirstWritten(es: seq<Entry>, os: seq<Others>)
    requires AllWritable(es, os) && es != []
    ensures |os| == |es| && Writable(es[0]) && Fit(os[0]) && AllWritable(es[1..], os[1..])
    ensures WrittenAll(es, os) == Written(es[0], os[0]) + WrittenAll(es[1..], os[1..])
  {
    hide Written, Writable, Fit;
  }

  lemma FirstRecord(mem: seq<byte>, off: nat, end: nat, es: seq<Entry>)
    requires es != [] && off <= end && HeaderAt(mem, off, es[0]) && |Content(es[0])| < 0x1_0000_0000
    requires ArchiveAt(mem, Next(off, |Content(es[0])|), end, es[1..])
    ensures ArchiveAt(mem, off, end, es)
  {
    hide HeaderAt, Content;
  }

  lemma NoRecord(mem: seq<byte>, off: nat, end: nat)
    requires !IsHeader(mem, off)
    ensures ArchiveAt(mem, off, end, [])
  {
  }

  lemma NoneWritten(os: seq<Others>)
    requires AllWritable([], os)
    ensures WrittenAll([], os) == []
  {
  }

  /** One written part after the other. */
  lemma TwoParts(mem: seq<byte>, off: nat, w: seq<byte>, rest: seq<byte>, all: seq<byte>, next: nat, last: nat)
    requires all == w + rest && off + |all| <= |mem| && mem[off .. off + |all|] == all
    requires next == off + |w| && last == off + |all|
    ensures next <= last == next + |rest| && mem[off..next] == w && mem[next..last] == rest
  {
    assert all[0..|w|] == w && all[|w|..|all|] == rest;
    Inner(mem, off, all, 0, |w|);
    Inner(mem, off, all, |w|, |all|);
  }

  /** The whole archive is read as its entries. */
  lemma {:induction false} AllIsRead(mem: seq<byte>, off: nat, last: nat, end: nat, es: seq<Entry>, os: seq<Others>)
    requires AllWritable(es, os) && last == off + |WrittenAll(es, os)| && last <= end <= |mem|
    requires mem[off..last] == WrittenAll(es, os) && !IsHeader(mem, last)
    ensures ArchiveAt(mem, off, end, es)
    decreases |es|
  {
    hide *;
    if es == [] {
      NoneWritten(os);
      NoRecord(mem, off, end);
    } else {
      FirstWritten(es, os);
      var w, rest := Written(es[0], os[0]), WrittenAll(es[1..], os[1..]);
      TwoParts(mem, off, w, rest, WrittenAll(es, os), off + |w|, last);
      WrittenIsRead(mem, off, es[0], os[0]);
      AllIsRead(mem, off + |w|, last, end, es[1..], os[1..]);
      FirstRecord(mem, off, end, es);
    }
  }

  lemma ArchiveIsRead(mem: seq<byte>, end: nat, es: seq<Entry>, os: seq<Others>, first: seq<byte>, rest: seq<byte>)
    requires Archive(mem, end, es, os, first, rest)
    ensures end + RECORD <= |mem| && ArchiveAt(mem, RECORD, end, es)
  {
    var w := WrittenAll(es, os);
    hide WrittenAll;
    Part(first, w, Zeros(512) + rest, mem) by { assert mem == first + w + (Zeros(512) + rest); }
    NoHeader(mem, 512 + |w|);
    AllIsRead(mem, RECORD, 512 + |w|, end, es, os);
  }

  lemma NoHeader(mem: seq<byte>, off: nat)
    requires off + 512 <= |mem| && mem[off + 257] == 0
    ensures !IsHeader(mem, off)
  {
    var magic := mem[off + MAGIC_AT .. off + MAGIC_AT + 5];
    assert magic[0] == mem[off + MAGIC_AT];
  }
}
