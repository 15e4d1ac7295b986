/** Loading the initial file system, and looking up paths in it: kernel/src/file.c. */
module Initrd {
  import opened BitStream
  import opened Options
  import opened Paths
  import opened FileTree
  import opened Tar
  import opened TarFormat

  /** The path of a link in a directory. */
  function LinkPath(parent: seq<byte>, name: Name): seq<byte> {
    if parent != [] && parent[|parent| - 1] == SLASH then parent + name else parent + [SLASH] + name
  }

  /** How many frames parseFile asks for; the sum wraps around at 32 bits. */
  function FramesFor(filesize: nat): nat {
    (filesize + 0x1000 - 1) % 0x1_0000_0000 / 0x1000
  }

  lemma SomeFrames(filesize: nat)
    requires 0 < filesize <= MAX_CONTENT
    ensures FramesFor(filesize) > 0
  {
  }

  /** What parseFile makes of the record at off, in directory d. */
  function FileOf(mem: seq<byte>, off: nat, d: nat): File
    requires off + RECORD <= |mem| && |CString(mem, off)| >= 6
    requires off + RECORD + Oct(mem[off + SIZE_AT .. off + SIZE_AT + 11]) <= |mem|
  {
    var filename, size := CString(mem, off), Oct(mem[off + SIZE_AT .. off + SIZE_AT + 11]);
    File(filename[6..], Leaf(Split(filename)), d, mem[off + RECORD .. off + RECORD + size], Oct(mem[off + MODE_AT .. off + MODE_AT + 7]))
  }

  /** When parseFile does not stop. */
  predicate FileAccepted(dirs: Directories, mem: seq<byte>, off: nat)
    requires off + RECORD <= |mem|
  {
    var filename := CString(mem, off);
    var parent := Walk(dirs, None, Split(filename), true);
    parent.Found? && parent.dir < |dirs| && |dirs[parent.dir].files| < MAX_FILES &&
    6 <= |filename| <= MAX_FULL_PATH_LENGTH + 6 && |Leaf(Split(filename))| <= MAX_NAME_LENGTH &&
    FramesFor(Oct(mem[off + SIZE_AT .. off + SIZE_AT + 11])) > 0 &&
    off + RECORD + Oct(mem[off + SIZE_AT .. off + SIZE_AT + 11]) <= |mem|
  }

  /** When parseDirectory does not stop. */
  predicate DirAccepted(dirs: Directories, mem: seq<byte>, off: nat)
    requires off + RECORD <= |mem|
  {
    var filename := CString(mem, off);
    var parent := Walk(dirs, None, Split(filename), true);
    parent.Found? && parent.dir < |dirs| && |dirs[parent.dir].directories| < MAX_DIRECTORIES &&
    6 < |filename| <= MAX_FULL_PATH_LENGTH + 6 && 0 < |Leaf(Split(filename))| <= MAX_NAME_LENGTH + 1
  }

  /** What parseDirectory makes of the record at off: the directory, and its two links. */
  function DirOf(mem: seq<byte>, off: nat, d: nat): Directory
    requires off + RECORD <= |mem| && |CString(mem, off)| > 6 && 0 < |Leaf(Split(CString(mem, off)))|
  {
    var filename := CString(mem, off);
    var leaf := Leaf(Split(filename));
    Directory(filename[6 .. |filename| - 1], leaf[..|leaf| - 1], d, [], [], REGULAR, 0, Oct(mem[off + MODE_AT .. off + MODE_AT + 7]))
  }

  /** A name without a slash at its end. */
  function Bare(name: Name): Name {
    if name != [] && name[|name| - 1] == SLASH then name[..|name| - 1] else name
  }

  /** The name of the link, and its path in dir, are not too long. */
  predicate LinkFits(dir: Directory, name: Name) {
    |Bare(name)| <= MAX_NAME_LENGTH && |dir.fullpath| + |Bare(name)| + 1 <= MAX_FULL_PATH_LENGTH
  }

  /** The entry that createSymbolicDirectory leaves in directory dir, which has the number at: if the
      link does not fit, one without a name. */
  function LinkTo(dir: Directory, at: nat, link: nat, name: Name, mode: nat): Directory {
    if LinkFits(dir, name) then Directory(LinkPath(dir.fullpath, Bare(name)), name, at, [], [], SYMBOLIC, link, mode)
    else Directory([], [], at, [], [], REGULAR, 0, 0)
  }

  /** All directories after parseDirectory. */
  function WithDirectory(dirs: Directories, mem: seq<byte>, off: nat, d: nat): Directories
    requires off + RECORD <= |mem| && |CString(mem, off)| > 6 && 0 < |Leaf(Split(CString(mem, off)))| && d < |dirs|
  {
    var dir, n := DirOf(mem, off, d), |dirs|;
    AddDirectory(dirs, d, dir, LinkTo(dir, n, n, DOT, dir.mode), LinkTo(dir, n, d, DOTDOT, dirs[d].mode))
  }

  /** All directories after createSymbolicDirectory. */
  function WithLink(dirs: Directories, parent: nat, link: nat, name: Name, mode: nat): Directories
    requires parent < |dirs|
  {
    dirs[parent := dirs[parent].(directories := dirs[parent].directories + [|dirs|])] + [LinkTo(dirs[parent], parent, link, name, mode)]
  }

  /** A new link is found under its name, if the name is new. */
  lemma LinkFound(dirs: Directories, parent: nat, link: nat, name: Name, mode: nat)
    requires parent < |dirs| && name != []
    ensures LinkFits(dirs[parent], name) && ChildDir(dirs, parent, name) == None ==>
              ChildDir(WithLink(dirs, parent, link, name, mode), parent, name) == Some(link)
  {
    var dirs', list := WithLink(dirs, parent, link, name, mode), dirs[parent].directories;
    if LinkFits(dirs[parent], name) && ChildDir(dirs, parent, name) == None {
      var list' := list + [|dirs|];
      assert dirs'[parent].directories == list';
      assert FindDir(dirs, list, name, 0) == |list|;
      forall j | 0 <= j < |list| && NameOf(dirs', list'[j]) == name ensures list'[j] == |dirs| {
        assert NameOf(dirs, list[j]) != name;
      }
      assert NameOf(dirs', list'[|list|]) == name;
    }
  }

  lemma FindOfTwo(dirs: Directories, a: nat, b: nat, name: Name)
    ensures FindDir(dirs, [a, b], name, 0) == if NameOf(dirs, a) == name then 0 else if NameOf(dirs, b) == name then 1 else 2
  {
    assert FindDir(dirs, [a, b], name, 1) == if NameOf(dirs, b) == name then 1 else 2;
  }

  /** In a new directory . is found to be the directory itself, and .. its parent, just if the name in
      the header is short enough for the paths of these links. */
  lemma NewDirectoryLinks(dirs: Directories, mem: seq<byte>, off: nat, d: nat)
    requires off + RECORD <= |mem| && DirAccepted(dirs, mem, off) && d == Walk(dirs, None, Split(CString(mem, off)), true).dir
    ensures var dirs', n := WithDirectory(dirs, mem, off, d), |dirs|;
            n < |dirs'| &&
            (ChildDir(dirs', n, DOT) == Some(n) <==> |CString(mem, off)| <= 261) &&
            (ChildDir(dirs', n, DOTDOT) == Some(d) <==> |CString(mem, off)| <= 260)
  {
    hide CString, Split, Walk, Leaf, Oct;
    var dirs', n := WithDirectory(dirs, mem, off, d), |dirs|;
    assert dirs'[n].directories == [n + 1, n + 2];
    FindOfTwo(dirs', n + 1, n + 2, DOT);
    FindOfTwo(dirs', n + 1, n + 2, DOTDOT);
    hide AddDirectory, FindDir;
  }

  /** A record of an archive has its magic where a name of 257 to 261 characters would end: of its
      directory either both links are found, or, if the name runs through the magic, neither. */
  lemma LinksInArchive(dirs: Directories, mem: seq<byte>, off: nat, d: nat)
    requires IsHeader(mem, off) && DirAccepted(dirs, mem, off) && d == Walk(dirs, None, Split(CString(mem, off)), true).dir
    ensures |CString(mem, off)| <= 256 || |CString(mem, off)| == 262
    ensures var dirs', n := WithDirectory(dirs, mem, off, d), |dirs|;
            n < |dirs'| &&
            (ChildDir(dirs', n, DOT) == Some(n) <==> |CString(mem, off)| <= 256) &&
            (ChildDir(dirs', n, DOTDOT) == Some(d) <==> |CString(mem, off)| <= 256)
  {
    hide DirAccepted, CString, Split, Walk, Leaf, Oct, WithDirectory, ChildDir;
    NewDirectoryLinks(dirs, mem, off, d);
    NameLength(dirs, mem, off);
  }

  lemma NameLength(dirs: Directories, mem: seq<byte>, off: nat)
    requires IsHeader(mem, off) && DirAccepted(dirs, mem, off)
    ensures |CString(mem, off)| <= 256 || |CString(mem, off)| == 262
  {
    CStringEnds(mem, off);
    MagicBytes(mem, off);
    hide CString, Split, Walk, Leaf;
  }

  lemma MagicBytes(mem: seq<byte>, off: nat)
    requires IsHeader(mem, off)
    ensures forall k: nat | off + 257 <= k <= off + 261 :: mem[k] != 0
  {
    var magic := mem[off + MAGIC_AT .. off + MAGIC_AT + 5];
    assert forall k: nat | off + 257 <= k <= off + 261 :: mem[k] == magic[k - (off + 257)];
  }

  /** A record whose name runs through the magic, and that is accepted if there is a directory 5 in the
      root: initrd, 150 slashes, 5, 100 slashes, ustar. Its directory has neither link. */
  lemma LongName(dirs: Directories) returns (mem: seq<byte>)
    requires ROOT < |dirs| && |dirs[ROOT].directories| < MAX_DIRECTORIES && ChildDir(dirs, ROOT, [53]) != None
    ensures |mem| == RECORD && IsHeader(mem, 0) && mem[TYPE_AT] == 53 && |CString(mem, 0)| == 262 && DirAccepted(dirs, mem, 0)
    ensures ChildDir(WithDirectory(dirs, mem, 0, ROOT), |dirs|, DOT) != Some(|dirs|)
    ensures ChildDir(WithDirectory(dirs, mem, 0, ROOT), |dirs|, DOTDOT) != Some(ROOT)
  {
    var name: seq<byte> := INITRD + Slashes(150) + [53] + Slashes(100) + USTAR;
    mem := name + seq(250, i => 0);
    LongRecord(mem, name);
    LongWalk(dirs, name);
    hide CString, Split, Walk, Leaf, Oct, ChildDir, IsHeader, Slashes;
    LinksInArchive(dirs, mem, 0, ROOT);
  }

  lemma LongRecord(mem: seq<byte>, name: seq<byte>)
    requires name == INITRD + Slashes(150) + [53] + Slashes(100) + USTAR && mem == name + seq(250, i => 0)
    ensures |mem| == RECORD && IsHeader(mem, 0) && mem[TYPE_AT] == 53 && CString(mem, 0) == name && |name| == 262
  {
    assert mem[..|name|] == name && mem[|name|] == 0;
    assert mem[MAGIC_AT .. MAGIC_AT + 5] == USTAR;
    CStringIs(mem, 0, name);
  }

  function Slashes(k: nat): (s: seq<byte>)
    ensures |s| == k && 0 !in s
  {
    seq(k, i => SLASH)
  }

  lemma LongWalk(dirs: Directories, name: seq<byte>)
    requires ChildDir(dirs, ROOT, [53]) != None && name == INITRD + Slashes(150) + [53] + Slashes(100) + USTAR
    ensures Walk(dirs, None, Split(name), true) == Found(ROOT) && Leaf(Split(name)) == USTAR
  {
    hide Split, Walk, Leaf, ChildDir;
    var outer: seq<byte> := Slashes(149) + FivePath();
    NamePath(name);
    FiveWalk(dirs);
    SlashesWalk(dirs, ROOT, 149, FivePath());
    FirstName(dirs, None, INITRD, outer);
  }

  function FivePath(): (s: seq<byte>)
    ensures s != []
  {
    [53] + [SLASH] + (Slashes(99) + USTAR)
  }

  lemma NamePath(name: seq<byte>)
    requires name == INITRD + Slashes(150) + [53] + Slashes(100) + USTAR
    ensures name == INITRD + [SLASH] + (Slashes(149) + FivePath())
  {
    assert Slashes(100) == [SLASH] + Slashes(99) && Slashes(150) == [SLASH] + Slashes(149);
  }

  lemma FiveWalk(dirs: Directories)
    requires ChildDir(dirs, ROOT, [53]) != None
    ensures Walk(dirs, Some(ROOT), Split(FivePath()), true) == Found(ROOT) && Leaf(Split(FivePath())) == USTAR
  {
    var c := ChildDir(dirs, ROOT, [53]).value;
    UstarName();
    hide Split, Walk, Leaf, ChildDir, Slashes;
    LastName(dirs, Some(ROOT), USTAR, true);
    SlashesWalk(dirs, c, 99, USTAR);
    FirstName(dirs, Some(ROOT), [53], Slashes(99) + USTAR);
  }

  lemma UstarName()
    ensures Split(USTAR) == [USTAR]
  {
    UpToFirst(USTAR, []);
    assert USTAR + [] == USTAR;
  }

  /** The first name of a path that goes on. */
  lemma FirstName(dirs: Directories, at: Option<nat>, name: Name, rest: seq<byte>)
    requires SLASH !in name && rest != [] && |name| <= MAX_NAME_LENGTH
    ensures Leaf(Split(name + [SLASH] + rest)) == Leaf(Split(rest))
    ensures Walk(dirs, at, Split(name + [SLASH] + rest), true) ==
            if name == INITRD || name == [] then Walk(dirs, Some(ROOT), Split(rest), true)
            else if at == None then Halt
            else match ChildDir(dirs, at.value, name) case None => Failed(true) case Some(c) => Walk(dirs, Some(c), Split(rest), true)
  {
    hide Walk, Leaf, Split, ChildDir;
    var s := name + [SLASH] + rest;
    assert s[0..|name|] == name && s[|name| + 1..] == rest && s[0..] == s && rest[0..] == rest;
    SplitAt(s, 0, |name|);
    MoreToCome(rest, 0);
    WalkStep(dirs, at, name, Split(rest), true);
  }

  lemma {:induction false} SlashesWalk(dirs: Directories, d: nat, k: nat, rest: seq<byte>)
    requires rest != []
    ensures Leaf(Split(Slashes(k) + rest)) == Leaf(Split(rest))
    ensures Walk(dirs, Some(d), Split(Slashes(k) + rest), true) == Walk(dirs, Some(if k == 0 then d else ROOT), Split(rest), true)
  {
    hide Split, Walk, Leaf, ChildDir;
    if k == 0 {
      assert Slashes(0) + rest == rest;
    } else {
      assert Slashes(k) + rest == [] + [SLASH] + (Slashes(k - 1) + rest);
      FirstName(dirs, Some(d), [], Slashes(k - 1) + rest);
      SlashesWalk(dirs, ROOT, k - 1, rest);
    }
  }

  /** What getFile finds. */
  function FileAt(dirs: Directories, files: Files, path: seq<byte>): Option<nat> {
    match Walk(dirs, None, Split(path), false)
    case Found(d) => ChildFile(dirs, files, d, Leaf(Split(path)))
    case _ => None
  }

  class FileSystem {
    var dirs: Directories
    var files: Files

    ghost var dirAt: map<Path, nat>
    ghost var fileAt: map<Path, seq<byte>>

    /** The directories and files are those of dirAt and fileAt. */
    ghost predicate Valid()
      reads this
    {
      Represents(dirs, files, dirAt, fileAt)
    }

    constructor ()
      ensures dirs == [] && files == []
    {
      dirs, files := [], [];
    }

    /** getDirectoryFromParent; a slash at the end of the name is ignored. */
    method GetDirectoryFromParent(parent: nat, name: seq<byte>) returns (r: Option<nat>)
      requires parent < |dirs| && name != []
      ensures r == ChildDir(dirs, parent, if name[|name| - 1] == SLASH then name[..|name| - 1] else name)
    {
      var nameBuf := if name[|name| - 1] == SLASH then name[..|name| - 1] else name;
      var list := dirs[parent].directories;
      for i := 0 to |list|
        invariant FindDir(dirs, list, nameBuf, 0) == FindDir(dirs, list, nameBuf, i)
      {
        if NameOf(dirs, list[i]) == nameBuf {
          if list[i] >= |dirs| {
            return None;
          }
          return Some(if dirs[list[i]].kind == SYMBOLIC then dirs[list[i]].link else list[i]);
        }
      }
      r := None;
    }

    /** getFileFromParent. */
    method GetFileFromParent(parent: nat, name: Name) returns (r: Option<nat>)
      requires parent < |dirs|
      ensures r == ChildFile(dirs, files, parent, name)
    {
      var list := dirs[parent].files;
      for i := 0 to |list|
        invariant FindFile(files, list, name, 0) == FindFile(files, list, name, i)
      {
        if FileName(files, list[i]) == name {
          return Some(list[i]);
        }
      }
      r := None;
    }

    /** findParent with no directory to start from: the walk along the components of the path, and
        where its last name begins. */
    method FindParent(filename: seq<byte>, init: bool) returns (r: Outcome, slash: nat)
      ensures r == Walk(dirs, None, Split(filename), init)
      ensures r.Found? ==> slash <= |filename| && filename[slash..] == Leaf(Split(filename))
    {
      hide Walk, Split, Leaf, ChildDir;
      var parent: Option<nat> := None;
      var name: seq<byte> := [];
      slash := 0;
      assert filename[0..] == filename;
      for i := 0 to |filename|
        invariant slash <= i && name == filename[slash..i] && SLASH !in name && |name| <= MAX_NAME_LENGTH
        invariant Walk(dirs, None, Split(filename), init) == Walk(dirs, parent, Split(filename[slash..]), init)
        invariant Leaf(Split(filename)) == Leaf(Split(filename[slash..]))
        invariant parent == None <==> slash == 0
      {
        if filename[i] == SLASH {
          SplitAt(filename, slash, i);
          if i + 1 == |filename| {
            LastSlash(dirs, parent, name, init, filename, slash);
            if i == 0 {
              return Found(ROOT), slash;
            }
            return (if parent.Some? then Found(parent.value) else Missing), slash;
          }
          MoreToCome(filename, i + 1);
          WalkStep(dirs, parent, name, Split(filename[i + 1..]), init);
          slash := i + 1;
          if name == INITRD && init {
            parent := Some(ROOT);
          } else if name == [] {
            parent := Some(ROOT);
          } else {
            if parent == None {
              return Halt, slash;
            }
            var p: Option<nat>;
            if parent.value < |dirs| {
              NoSlashAtEnd(name);
              p := GetDirectoryFromParent(parent.value, name);
            } else {
              p := None;
              ChildOfNothing(dirs, parent.value, name);
            }
            if p == None {
              return Failed(init), slash;
            }
            parent := p;
          }
          name := [];
        } else {
          if |name| >= MAX_NAME_LENGTH {
            TooLong(dirs, parent, filename, slash, i, init);
            return Failed(init), slash;
          }
          assert filename[slash..i + 1] == name + [filename[i]];
          name := name + [filename[i]];
        }
      }
      SplitAt(filename, slash, |filename|);
      LastName(dirs, parent, name, init);
      r := if parent.Some? then Found(parent.value) else Missing;
    }

    /** getFile. halted tells whether the kernel has stopped. */
    method GetFile(filepath: seq<byte>) returns (halted: bool, r: Option<nat>)
      ensures halted <==> Walk(dirs, None, Split(filepath), false) == Halt
      ensures r == FileAt(dirs, files, filepath)
    {
      hide Walk, Split, Leaf, ChildFile;
      var parent, slash := FindParent(filepath, false);
      if !parent.Found? {
        return parent.Halt?, None;
      }
      halted := false;
      if parent.dir < |dirs| {
        r := GetFileFromParent(parent.dir, filepath[slash..]);
      } else {
        r := None;
        ChildOfNoDir(dirs, files, parent.dir, filepath[slash..]);
      }
    }

    /** createSymbolicDirectory. It fails if the directory is full or the link does not fit, in the
        second case with an entry that has no name. A link that has been made is found under its name,
        if there has not been an entry of that name before. */
    method CreateSymbolicDirectory(parent: nat, link: nat, name: Name, mode: nat) returns (r: Option<nat>)
      requires parent < |dirs| && name != []
      modifies this`dirs
      ensures r.Some? <==> |old(dirs)[parent].directories| < MAX_DIRECTORIES && LinkFits(old(dirs)[parent], name)
      ensures r.Some? ==> r.value == |old(dirs)| && (ChildDir(old(dirs), parent, name) == None ==> ChildDir(dirs, parent, name) == Some(link))
      ensures |old(dirs)[parent].directories| >= MAX_DIRECTORIES ==> dirs == old(dirs)
      ensures |old(dirs)[parent].directories| < MAX_DIRECTORIES ==> dirs == WithLink(old(dirs), parent, link, name, mode)
    {
      if |dirs[parent].directories| >= MAX_DIRECTORIES {
        return None;
      }
      LinkFound(dirs, parent, link, name, mode);
      ghost var dirs0 := dirs;
      var n, dir := |dirs|, dirs[parent];
      dirs := dirs[parent := dir.(directories := dir.directories + [n])] + [Directory([], [], parent, [], [], REGULAR, 0, 0)];
      var bare := if name[|name| - 1] == SLASH then name[..|name| - 1] else name;
      if |bare| > MAX_NAME_LENGTH {
        return None;
      }
      if |dir.fullpath| + |bare| + 1 > MAX_FULL_PATH_LENGTH {
        return None;
      }
      dirs := dirs[n := Directory(LinkPath(dir.fullpath, bare), name, parent, [], [], SYMBOLIC, link, mode)];
      assert dirs == WithLink(dirs0, parent, link, name, mode);
      r := Some(n);
    }

    /** parseFile; ok is false where the kernel stops. */
    method ParseFile(mem: seq<byte>, off: nat) returns (ok: bool)
      requires off + RECORD <= |mem|
      modifies this`dirs, this`files
      ensures ok <==> FileAccepted(old(dirs), mem, off)
      ensures ok ==> var d := Walk(old(dirs), None, Split(CString(mem, off)), true).dir;
                dirs == AddFile(old(dirs), old(files), d) && files == old(files) + [FileOf(mem, off, d)] &&
                d < |old(dirs)| && |dirs| == |old(dirs)| && dirs[d].files == old(dirs)[d].files + [|old(files)|]
    {
      hide Walk, Split, Leaf, CString, Oct, FramesFor;
      var filename := CString(mem, off);
      var filesize := Oct2bin(mem[off + SIZE_AT .. off + SIZE_AT + 11]);
      var parent, slash := FindParent(filename, true);
      if !parent.Found? || parent.dir >= |dirs| {
        return false;
      }
      if |dirs[parent.dir].files| >= MAX_FILES {
        return false;
      }
      if |filename| < 6 || |filename| - 6 > MAX_FULL_PATH_LENGTH {
        return false;
      }
      if |filename[slash..]| > MAX_NAME_LENGTH {
        return false;
      }
      if FramesFor(filesize) == 0 || off + RECORD + filesize > |mem| {
        return false;
      }
      var mode := Oct2bin(mem[off + MODE_AT .. off + MODE_AT + 7]);
      var file := File(filename[6..], filename[slash..], parent.dir, mem[off + RECORD .. off + RECORD + filesize], mode);
      dirs := dirs[parent.dir := dirs[parent.dir].(files := dirs[parent.dir].files + [|files|])];
      files := files + [file];
      ok := true;
    }

    /** parseDirectory; ok is false where the kernel stops. */
    method ParseDirectory(mem: seq<byte>, off: nat) returns (ok: bool)
      requires off + RECORD <= |mem|
      modifies this`dirs
      ensures ok <==> DirAccepted(old(dirs), mem, off)
      ensures ok ==> var d := Walk(old(dirs), None, Split(CString(mem, off)), true).dir;
                dirs == WithDirectory(old(dirs), mem, off, d) &&
                d < |old(dirs)| < |dirs| && dirs[d].directories == old(dirs)[d].directories + [|old(dirs)|]
    {
      hide Walk, Split, Leaf, CString, Oct, LinkTo, AddDirectory;
      var filename := CString(mem, off);
      var parent, slash := FindParent(filename, true);
      if !parent.Found? || parent.dir >= |dirs| {
        return false;
      }
      if |dirs[parent.dir].directories| >= MAX_DIRECTORIES {
        return false;
      }
      if |filename| <= 6 || |filename| - 6 > MAX_FULL_PATH_LENGTH {
        return false;
      }
      var leaf := filename[slash..];
      if |leaf| == 0 || |leaf| - 1 > MAX_NAME_LENGTH {
        return false;
      }
      var mode := Oct2bin(mem[off + MODE_AT .. off + MODE_AT + 7]);
      var directory := Directory(filename[6 .. |filename| - 1], leaf[..|leaf| - 1], parent.dir, [], [], REGULAR, 0, mode);
      NewDirectory(parent.dir, directory);
      ok := true;
    }

    /** The rest of parseDirectory: a new entry of directory d, with its two links. */
    method NewDirectory(d: nat, directory: Directory)
      requires d < |dirs| && directory.directories == []
      modifies this`dirs
      ensures dirs == AddDirectory(old(dirs), d, directory, LinkTo(directory, |old(dirs)|, |old(dirs)|, DOT, directory.mode),
                                   LinkTo(directory, |old(dirs)|, d, DOTDOT, old(dirs)[d].mode))
      ensures |dirs| > |old(dirs)| && dirs[d].directories == old(dirs)[d].directories + [|old(dirs)|]
    {
      var n := |dirs|;
      dirs := dirs[d := dirs[d].(directories := dirs[d].directories + [n])] + [directory];
      var dot := CreateSymbolicDirectory(n, n, DOT, directory.mode);
      var dotdot := CreateSymbolicDirectory(n, d, DOTDOT, dirs[d].mode);
      assert dirs[n] == directory.(directories := [n + 1, n + 2]) && dirs[n + 1] == LinkTo(directory, n, n, DOT, directory.mode);
    }

    /** loadInitrd, from a memory that holds the archive up to end and a record behind it. Whatever the
        archive, if its records are those of es, exactly what es describes is loaded. */
    method LoadInitrd(mem: seq<byte>, end: nat, ghost es: seq<Entry>) returns (ok: bool)
      requires end + RECORD <= |mem|
      modifies this
      ensures ArchiveAt(mem, RECORD, end, es) && WellFormed(es) ==>
                ok && Valid() && dirAt.Keys == DirsIn(es) && fileAt == FilesIn(es)
    {
      hide Represents, HeaderAt, FileAccepted, DirAccepted, Walk, Split, Leaf, CString, Oct, FileOf, WithDirectory, AddFile, Padding,
        DirsIn, FilesIn, MayFollow, Counted, IsHeader;
      MakeRoot(mem);
      var offset := RECORD;
      ghost var k: nat := 0;
      ghost var good := ArchiveAt(mem, RECORD, end, es) && WellFormed(es);
      assert es[0..] == es && es[..0] == [];
      while offset <= end
        invariant good ==> k <= |es| && WellFormed(es) && ArchiveAt(mem, offset, end, es[k..])
        invariant good ==> Valid() && dirAt.Keys == DirsIn(es[..k]) && fileAt == FilesIn(es[..k]) && Counted(dirs, dirAt, es[..k])
        decreases end + 1 - offset
      {
        HeaderTest(mem, offset);
        if mem[offset + MAGIC_AT .. offset + MAGIC_AT + 5] != USTAR {
          break;
        }
        if good {
          OneMore(mem, offset, end, es, k);
          WellFormedPrefix(es, k);
          RecordStep(mem, offset, dirs, files, dirAt, fileAt, es[..k], es[k]);
          assert es[..k + 1] == es[..k] + [es[k]];
        }
        var dirs0, files0 := dirs, files;
        if mem[offset + TYPE_AT] == 48 {
          ok := ParseFile(mem, offset);
          if !ok {
            return;
          }
        } else if mem[offset + TYPE_AT] == 53 {
          ok := ParseDirectory(mem, offset);
          if !ok {
            return;
          }
        } else {
          return false;
        }
        var size := Oct2bin(mem[offset + SIZE_AT .. offset + SIZE_AT + 11]);
        if good {
          if es[k].ArchiveFile? {
            fileAt := fileAt[es[k].path := es[k].content];
          } else {
            dirAt := dirAt[es[k].path := |dirs0|];
          }
        }
        offset := offset + RECORD + Padding(size) + size;
        k := k + 1;
      }
      if good {
        NoMore(mem, offset, end, es, k);
      }
      ok := true;
    }

    /** Loading an archive as tar writes it, and looking up a path: the file of that path is found, with
        its bytes, if the archive has one, and otherwise nothing. */
    method LoadAndGet(mem: seq<byte>, end: nat, path: Path, ghost es: seq<Entry>, ghost os: seq<Others>, ghost first: seq<byte>, ghost rest: seq<byte>)
      returns (ok: bool, halted: bool, r: Option<nat>)
      requires Archive(mem, end, es, os, first, rest) && WellFormed(es) && path != [] && CleanPath(path)
      modifies this
      ensures ok && !halted && (r.Some? <==> path in FilesIn(es))
      ensures r.Some? ==> r.value < |files| && files[r.value].content == FilesIn(es)[path]
    {
      hide *;
      ArchiveIsRead(mem, end, es, os, first, rest);
      ok := LoadInitrd(mem, end, es);
      ValidIs();
      StoredFile(dirs, files, dirAt, fileAt, path);
      halted, r := GetFile(Join([[]] + path));
    }

    lemma ValidIs()
      requires Valid()
      ensures Represents(dirs, files, dirAt, fileAt)
    {
    }

    /** The root directory with its two links. */
    method MakeRoot(mem: seq<byte>)
      requires |mem| >= RECORD
      modifies this
      ensures Valid() && dirAt.Keys == DirsIn([]) && fileAt == FilesIn([]) && Counted(dirs, dirAt, [])
    {
      var mode := Oct2bin(mem[MODE_AT .. MODE_AT + 7]);
      var root := Directory([SLASH], [SLASH], ROOT, [], [], REGULAR, 0, mode);
      dirs, files := [root], [];
      var dot := CreateSymbolicDirectory(ROOT, ROOT, DOT, mode);
      var dotdot := CreateSymbolicDirectory(ROOT, ROOT, DOTDOT, mode);
      dirAt, fileAt := map[[] := ROOT], map[];
      assert dirs[0] == root.(directories := [1, 2]) && dirs[1] == LinkTo(root, ROOT, ROOT, DOT, mode);
      assert dirs == [root.(directories := [1, 2]), LinkTo(root, ROOT, ROOT, DOT, mode), LinkTo(root, ROOT, ROOT, DOTDOT, mode)];
      RootRepresents(dirs, root, LinkTo(root, ROOT, ROOT, DOT, mode), LinkTo(root, ROOT, ROOT, DOTDOT, mode));
    }

    /** oct2bin. */
    method Oct2bin(str: seq<byte>) returns (n: nat)
      ensures n == Oct(str)
    {
      n := 0;
      for i := 0 to |str|
        invariant n == Oct(str[..i])
      {
        assert str[..i + 1][..i] == str[..i];
        n := (n * 8 + str[i] - 48) % 0x1_0000_0000;
      }
      assert str[..|str|] == str;
    }
  }

  // ------------------------------------------------------------- what findParent relies on

  lemma LastSlash(dirs: Directories, parent: Option<nat>, name: Name, init: bool, s: seq<byte>, slash: nat)
    requires slash < |s| && s[|s| - 1] == SLASH && SLASH !in name && name == s[slash..|s| - 1] && |name| <= MAX_NAME_LENGTH
    ensures Leaf(Split(s[slash..])) == s[slash..]
    ensures Walk(dirs, parent, Split(s[slash..]), init) ==
            if parent.Some? then Found(parent.value) else if name == [] then Found(ROOT) else Missing
  {
    SplitAt(s, slash, |s| - 1);
    assert s[|s|..] == [] && Split([]) == [[]];
    assert Split(s[slash..]) == [name] + [[]];
    assert s[slash..] == name + [SLASH];
  }

  lemma MoreToCome(s: seq<byte>, i: nat)
    requires i < |s|
    ensures Split(s[i..]) != [[]]
  {
    JoinSplit(s[i..]);
  }

  lemma WalkStep(dirs: Directories, parent: Option<nat>, name: Name, rest: Path, init: bool)
    requires |rest| > 0 && rest != [[]] && |name| <= MAX_NAME_LENGTH
    ensures Leaf([name] + rest) == Leaf(rest)
    ensures Walk(dirs, parent, [name] + rest, init) ==
            if (name == INITRD && init) || name == [] then Walk(dirs, Some(ROOT), rest, init)
            else if parent == None then Halt
            else match ChildDir(dirs, parent.value, name) case None => Failed(init) case Some(c) => Walk(dirs, Some(c), rest, init)
  {
    var comps := [name] + rest;
    assert comps[1..] == rest;
    if |rest| == 1 {
      assert rest == [rest[0]];
    }
  }

  lemma TooLong(dirs: Directories, parent: Option<nat>, s: seq<byte>, slash: nat, i: nat, init: bool)
    requires slash <= i < |s| && SLASH !in s[slash..i] && s[i] != SLASH && i - slash == MAX_NAME_LENGTH
    ensures Walk(dirs, parent, Split(s[slash..]), init) == Failed(init)
  {
    var t := s[slash..];
    var n := UpToSlash(t);
    forall k | 0 <= k <= i - slash ensures t[k] != SLASH {
      assert t[k] == s[slash + k];
      if k < i - slash {
        assert s[slash..i][k] == t[k];
      }
    }
  }

  lemma NoSlashAtEnd(name: Name)
    requires SLASH !in name && name != []
    ensures name[|name| - 1] != SLASH
  {
  }

  lemma ChildOfNothing(dirs: Directories, d: nat, name: Name)
    requires d >= |dirs|
    ensures ChildDir(dirs, d, name) == None
  {
  }

  lemma ChildOfNoDir(dirs: Directories, files: Files, d: nat, name: Name)
    requires d >= |dirs|
    ensures ChildFile(dirs, files, d, name) == None
  {
  }

  lemma LastName(dirs: Directories, parent: Option<nat>, name: Name, init: bool)
    requires |name| <= MAX_NAME_LENGTH
    ensures Leaf([name]) == name
    ensures Walk(dirs, parent, [name], init) == if parent.Some? then Found(parent.value) else Missing
  {
  }

  // --------------------------------------------------------------- what loadInitrd relies on

  lemma RootRepresents(dirs: Directories, root: Directory, dot: Directory, dotdot: Directory)
    requires dirs == [root.(directories := [1, 2]), dot, dotdot] && root.files == [] && root.kind == REGULAR
    requires dot.kind == SYMBOLIC && dotdot.kind == SYMBOLIC && dot.name == DOT && dotdot.name == DOTDOT
    ensures Represents(dirs, [], map[[] := ROOT], map[]) && Counted(dirs, map[[] := ROOT], [])
  {
    hide Clean;
  }

  /** How full the directories are. */
  ghost predicate Counted(dirs: Directories, dirAt: map<Path, nat>, es: seq<Entry>) {
    forall p | p in dirAt :: Filled(dirs, dirAt[p], es, p)
  }

  ghost predicate Filled(dirs: Directories, d: nat, es: seq<Entry>, p: Path) {
    d < |dirs| && |dirs[d].files| == FileCount(es, p) && |dirs[d].directories| == 2 + DirCount(es, p)
  }

  lemma HeaderTest(mem: seq<byte>, off: nat)
    requires off + RECORD <= |mem|
    ensures IsHeader(mem, off) <==> mem[off + MAGIC_AT .. off + MAGIC_AT + 5] == USTAR
  {
  }

  /** A header means that there is another entry. */
  lemma OneMore(mem: seq<byte>, off: nat, end: nat, es: seq<Entry>, k: nat)
    requires k <= |es| && off <= end && IsHeader(mem, off) && ArchiveAt(mem, off, end, es[k..]) && WellFormed(es)
    ensures k < |es| && HeaderAt(mem, off, es[k]) && MayFollow(es[..k], es[k])
    ensures |Content(es[k])| < 0x1_0000_0000 && ArchiveAt(mem, Next(off, |Content(es[k])|), end, es[k + 1..])
  {
    hide MayFollow;
    assert k < |es|;
    assert es[k..][0] == es[k] && es[k..][1..] == es[k + 1..];
  }

  lemma NoMore(mem: seq<byte>, off: nat, end: nat, es: seq<Entry>, k: nat)
    requires k <= |es| && (off > end || !IsHeader(mem, off)) && ArchiveAt(mem, off, end, es[k..])
    ensures es[..k] == es
  {
    assert |es[k..]| == |es| - k;
  }

  lemma {:induction false} JoinNoNul(p: Path)
    requires forall i | 0 <= i < |p| :: 0 !in p[i]
    ensures 0 !in Join(p)
  {
    if |p| > 1 {
      JoinNoNul(p[1..]);
    }
  }

  /** What the header of an entry says. */
  lemma HeaderFacts(mem: seq<byte>, off: nat, e: Entry)
    requires HeaderAt(mem, off, e) && e.path != [] && CleanPath(e.path)
    ensures off + RECORD + |Content(e)| <= |mem| && |Content(e)| < 0x1_0000_0000
    ensures CString(mem, off) == HeaderName(e) && Oct(mem[off + SIZE_AT .. off + SIZE_AT + 11]) == |Content(e)|
    ensures Split(HeaderName(e)) == [INITRD] + e.path + if e.ArchiveDir? then [[]] else []
    ensures 6 < |HeaderName(e)| < NAME_SIZE
  {
    hide *;
    NameComponents(e);
    HeaderString(mem, off, e);
    HeaderSize(mem, off, e);
  }

  lemma HeaderString(mem: seq<byte>, off: nat, e: Entry)
    requires HeaderAt(mem, off, e) && 0 !in HeaderName(e)
    ensures CString(mem, off) == HeaderName(e) && |HeaderName(e)| < NAME_SIZE
  {
    hide HeaderName, CString, Content, FitsOctal, OctDigits;
    CStringIs(mem, off, HeaderName(e));
  }

  lemma HeaderSize(mem: seq<byte>, off: nat, e: Entry)
    requires HeaderAt(mem, off, e)
    ensures off + RECORD + |Content(e)| <= |mem| && |Content(e)| < 0x1_0000_0000
    ensures Oct(mem[off + SIZE_AT .. off + SIZE_AT + 11]) == |Content(e)|
  {
    hide HeaderName, Content, FitsOctal, OctDigits, Oct;
    OctOfDigits(|Content(e)|, 11);
  }

  lemma NameComponents(e: Entry)
    requires e.path != [] && CleanPath(e.path)
    ensures Split(HeaderName(e)) == [INITRD] + e.path + if e.ArchiveDir? then [[]] else []
    ensures 0 !in HeaderName(e) && |HeaderName(e)| > 6
  {
    var comps := [INITRD] + e.path + if e.ArchiveDir? then [[]] else [];
    forall i | 0 <= i < |comps| ensures SLASH !in comps[i] && 0 !in comps[i] {
      if 1 <= i <= |e.path| {
        assert comps[i] == e.path[i - 1] && Clean(e.path[i - 1]);
      }
    }
    hide Clean, CleanPath;
    SplitJoin(comps);
    JoinNoNul(comps);
    assert |comps| > 1 && Join(comps) == INITRD + [SLASH] + Join(comps[1..]);
  }

  /** The last name of a path is the leaf of its components. */
  lemma LeafIs(head: Name, p: Path, dir: bool)
    requires p != [] && CleanPath(p)
    ensures Leaf([head] + p + if dir then [[]] else []) == p[|p| - 1] + if dir then [SLASH] else []
    ensures [head] + p + (if dir then [[]] else []) == [head] + p[..|p| - 1] + ([p[|p| - 1]] + if dir then [[]] else [])
  {
    var comps := [head] + p + if dir then [[]] else [];
    assert comps[|p|] == p[|p| - 1] && Clean(p[|p| - 1]);
    assert p == p[..|p| - 1] + [p[|p| - 1]];
  }

  /** The next record is accepted, and what it adds is what the entry describes. */
  lemma RecordStep(mem: seq<byte>, off: nat, dirs: Directories, files: Files, dirAt: map<Path, nat>, fileAt: map<Path, seq<byte>>,
                   es: seq<Entry>, e: Entry)
    requires Represents(dirs, files, dirAt, fileAt) && dirAt.Keys == DirsIn(es) && fileAt == FilesIn(es)
    requires Counted(dirs, dirAt, es) && HeaderAt(mem, off, e) && MayFollow(es, e) && WellFormed(es)
    ensures off + RECORD <= |mem| && mem[off + TYPE_AT] == if e.ArchiveFile? then 48 else 53
    ensures Oct(mem[off + SIZE_AT .. off + SIZE_AT + 11]) == |Content(e)|
    ensures if e.ArchiveFile? then FileAccepted(dirs, mem, off) else DirAccepted(dirs, mem, off)
    ensures Loads(mem, off, dirs, files, dirAt, fileAt, es, e)
    ensures DirsIn(es + [e]) == DirsIn(es) + if e.ArchiveDir? then {e.path} else {}
    ensures FilesIn(es + [e]) == if e.ArchiveFile? then FilesIn(es)[e.path := e.content] else FilesIn(es)
  {
    HeaderAgain(mem, off, e);
    HeaderFacts(mem, off, e);
    GrownBy(es, e);
    hide *;
    if e.ArchiveFile? {
      FileStep(mem, off, dirs, files, dirAt, fileAt, es, e);
    } else {
      DirStep(mem, off, dirs, files, dirAt, fileAt, es, e);
    }
    LoadsIntro(mem, off, dirs, files, dirAt, fileAt, es, e);
  }

  /** What the tables stand for after the record has been loaded. */
  ghost predicate Loads(mem: seq<byte>, off: nat, dirs: Directories, files: Files, dirAt: map<Path, nat>, fileAt: map<Path, seq<byte>>,
                        es: seq<Entry>, e: Entry)
    requires off + RECORD <= |mem|
    requires if e.ArchiveFile? then FileAccepted(dirs, mem, off) else DirAccepted(dirs, mem, off)
  {
    var d := Walk(dirs, None, Split(CString(mem, off)), true).dir;
    if e.ArchiveFile? then
      Represents(AddFile(dirs, files, d), files + [FileOf(mem, off, d)], dirAt, fileAt[e.path := e.content]) &&
      Counted(AddFile(dirs, files, d), dirAt, es + [e])
    else
      Represents(WithDirectory(dirs, mem, off, d), files, dirAt[e.path := |dirs|], fileAt) &&
      Counted(WithDirectory(dirs, mem, off, d), dirAt[e.path := |dirs|], es + [e])
  }

  lemma LoadsIntro(mem: seq<byte>, off: nat, dirs: Directories, files: Files, dirAt: map<Path, nat>, fileAt: map<Path, seq<byte>>,
                   es: seq<Entry>, e: Entry)
    requires off + RECORD <= |mem| && if e.ArchiveFile? then FileAccepted(dirs, mem, off) else DirAccepted(dirs, mem, off)
    requires var d := Walk(dirs, None, Split(CString(mem, off)), true).dir;
             if e.ArchiveFile? then
               Represents(AddFile(dirs, files, d), files + [FileOf(mem, off, d)], dirAt, fileAt[e.path := e.content]) &&
               Counted(AddFile(dirs, files, d), dirAt, es + [e])
             else
               Represents(WithDirectory(dirs, mem, off, d), files, dirAt[e.path := |dirs|], fileAt) &&
               Counted(WithDirectory(dirs, mem, off, d), dirAt[e.path := |dirs|], es + [e])
    ensures Loads(mem, off, dirs, files, dirAt, fileAt, es, e)
  {
  }

  lemma WellFormedPrefix(es: seq<Entry>, k: nat)
    requires WellFormed(es) && k <= |es|
    ensures WellFormed(es[..k])
  {
    hide MayFollow;
    forall i | 0 <= i < k ensures MayFollow(es[..k][..i], es[..k][i]) {
      assert es[..k][..i] == es[..i];
    }
  }

  /** Nothing is in a directory that has not come yet. */
  lemma {:induction false} NothingYet(es: seq<Entry>, p: Path)
    requires WellFormed(es) && p !in DirsIn(es)
    ensures DirCount(es, p) == 0 && FileCount(es, p) == 0
    decreases |es|
  {
    if es != [] {
      var n := |es| - 1;
      WellFormedPrefix(es, n);
      assert MayFollow(es[..n], es[n]);
      NothingYet(es[..n], p);
    }
  }

  lemma GrownBy(es: seq<Entry>, e: Entry)
    ensures DirsIn(es + [e]) == DirsIn(es) + if e.ArchiveDir? then {e.path} else {}
    ensures FilesIn(es + [e]) == if e.ArchiveFile? then FilesIn(es)[e.path := e.content] else FilesIn(es)
    ensures forall p :: DirCount(es + [e], p) == DirCount(es, p) + if e.ArchiveDir? && Parent(e) == p then 1 else 0
    ensures forall p :: FileCount(es + [e], p) == FileCount(es, p) + if e.ArchiveFile? && Parent(e) == p then 1 else 0
  {
    assert (es + [e])[..|es|] == es;
  }

  lemma HeaderAgain(mem: seq<byte>, off: nat, e: Entry)
    requires HeaderAt(mem, off, e)
    ensures off + RECORD <= |mem| && mem[off + TYPE_AT] == if e.ArchiveFile? then 48 else 53
    ensures mem[off + RECORD .. off + RECORD + |Content(e)|] == Content(e)
  {
  }

  /** What is made of a record that tar has written: the path from the root on, the last name, the
      content, and the mode that is written in it. */
  lemma RecordIsRead(mem: seq<byte>, off: nat, e: Entry, o: Others, d: nat, m: nat)
    requires Writable(e) && Fit(o) && off + |Written(e, o)| <= |mem| && mem[off .. off + |Written(e, o)|] == Written(e, o)
    requires e.path != [] && CleanPath(e.path) && o.mode == OctDigits(m, 7) && FitsOctal(m, 7) && m < 0x1_0000_0000
    ensures off + RECORD <= |mem| && |CString(mem, off)| > 6 && |Leaf(Split(CString(mem, off)))| > 0
    ensures off + RECORD + Oct(mem[off + SIZE_AT .. off + SIZE_AT + 11]) <= |mem|
    ensures e.ArchiveFile? ==> FileOf(mem, off, d) == File(Join([[]] + e.path), e.path[|e.path| - 1], d, e.content, m)
    ensures e.ArchiveDir? ==> DirOf(mem, off, d) == Directory(Join([[]] + e.path), e.path[|e.path| - 1], d, [], [], REGULAR, 0, m)
  {
    RecordFields(mem, off, e, o, m);
    StoredPath(e);
    var full, last := Join([[]] + e.path), e.path[|e.path| - 1];
    hide *;
    NothingBehind(full);
    NothingBehind(last);
    ContentIs(e);
    if e.ArchiveFile? {
      FileIs(mem, off, d, full, last, e.content, m);
    } else {
      DirIs(mem, off, d, full, last, m);
    }
  }

  lemma NothingBehind(s: seq<byte>)
    ensures s + [] == s
  {
  }

  lemma ContentIs(e: Entry)
    ensures Content(e) == if e.ArchiveFile? then e.content else []
  {
  }

  lemma FileIs(mem: seq<byte>, off: nat, d: nat, full: seq<byte>, last: Name, content: seq<byte>, m: nat)
    requires off + RECORD + |content| <= |mem| && mem[off + RECORD .. off + RECORD + |content|] == content
    requires Oct(mem[off + SIZE_AT .. off + SIZE_AT + 11]) == |content| && Oct(mem[off + MODE_AT .. off + MODE_AT + 7]) == m
    requires |CString(mem, off)| > 6 && CString(mem, off)[6..] == full && Leaf(Split(CString(mem, off))) == last
    ensures FileOf(mem, off, d) == File(full, last, d, content, m)
  {
    hide CString, Split, Leaf, Oct;
  }

  lemma DirIs(mem: seq<byte>, off: nat, d: nat, full: seq<byte>, last: Name, m: nat)
    requires off + RECORD <= |mem| && Oct(mem[off + MODE_AT .. off + MODE_AT + 7]) == m
    requires |CString(mem, off)| > 6 && CString(mem, off)[6..] == full + [SLASH] && Leaf(Split(CString(mem, off))) == last + [SLASH]
    ensures DirOf(mem, off, d) == Directory(full, last, d, [], [], REGULAR, 0, m)
  {
    hide CString, Split, Leaf, Oct;
    var name := CString(mem, off);
    assert name[6 .. |name| - 1] == name[6..][..|full|] == full;
  }

  lemma RecordFields(mem: seq<byte>, off: nat, e: Entry, o: Others, m: nat)
    requires Writable(e) && Fit(o) && off + |Written(e, o)| <= |mem| && mem[off .. off + |Written(e, o)|] == Written(e, o)
    requires e.path != [] && CleanPath(e.path) && o.mode == OctDigits(m, 7) && FitsOctal(m, 7) && m < 0x1_0000_0000
    ensures off + RECORD + |Content(e)| <= |mem| && mem[off + RECORD .. off + RECORD + |Content(e)|] == Content(e)
    ensures Oct(mem[off + SIZE_AT .. off + SIZE_AT + 11]) == |Content(e)| && Oct(mem[off + MODE_AT .. off + MODE_AT + 7]) == m
    ensures CString(mem, off) == HeaderName(e)
    ensures Leaf(Split(HeaderName(e))) == e.path[|e.path| - 1] + if e.ArchiveDir? then [SLASH] else []
    ensures |Leaf(Split(HeaderName(e)))| > 0
  {
    hide Written, CString, Split, Leaf, Oct, HeaderName, Content, OctDigits, FitsOctal, HeaderAt, CleanPath, Field, Writable;
    WrittenIsRead(mem, off, e, o);
    HeaderFacts(mem, off, e);
    HeaderAgain(mem, off, e);
    LeafOfHeader(e);
    ModeField(mem, off, o.mode, m);
  }

  lemma LeafOfHeader(e: Entry)
    requires e.path != [] && CleanPath(e.path)
    ensures Leaf(Split(HeaderName(e))) == e.path[|e.path| - 1] + if e.ArchiveDir? then [SLASH] else []
    ensures |Leaf(Split(HeaderName(e)))| > 0
  {
    assert Clean(e.path[|e.path| - 1]);
    NameComponents(e);
    LeafIs(INITRD, e.path, e.ArchiveDir?);
    hide HeaderName, Split, Leaf, CleanPath;
  }

  lemma ModeField(mem: seq<byte>, off: nat, mode: seq<byte>, m: nat)
    requires off + MODE_AT + 8 <= |mem| && |mode| <= 8 && mem[off + MODE_AT .. off + MODE_AT + 8] == Field(mode, 8)
    requires mode == OctDigits(m, 7) && FitsOctal(m, 7) && m < 0x1_0000_0000
    ensures Oct(mem[off + MODE_AT .. off + MODE_AT + 7]) == m
  {
    OctOfDigits(m, 7);
    ModeDigits(mem[off + MODE_AT .. off + MODE_AT + 8], mode);
    assert mem[off + MODE_AT .. off + MODE_AT + 7] == mem[off + MODE_AT .. off + MODE_AT + 8][..7];
  }

  lemma ModeDigits(field: seq<byte>, mode: seq<byte>)
    requires |mode| == 7 && field == Field(mode, 8)
    ensures field[..7] == mode
  {
  }

  /** The path from the root on is in the header behind initrd, with a slash at its end for a directory. */
  lemma StoredPath(e: Entry)
    requires e.path != []
    ensures |HeaderName(e)| > 6 && HeaderName(e)[6..] == Join([[]] + e.path) + if e.ArchiveDir? then [SLASH] else []
  {
    var tail: Path := if e.ArchiveDir? then [[]] else [];
    JoinCons(INITRD, e.path + tail);
    JoinCons([], e.path);
    assert [INITRD] + e.path + tail == [INITRD] + (e.path + tail);
    if e.ArchiveDir? {
      JoinSnoc(e.path);
    } else {
      assert e.path + tail == e.path;
    }
  }

  lemma {:induction false} JoinSnoc(p: Path)
    requires p != []
    ensures Join(p + [[]]) == Join(p) + [SLASH]
  {
    if |p| == 1 {
      JoinCons(p[0], [[]]);
      assert p + [[]] == [p[0]] + [[]];
    } else {
      JoinSnoc(p[1..]);
      JoinCons(p[0], p[1..] + [[]]);
      assert p + [[]] == [p[0]] + (p[1..] + [[]]);
    }
  }

  /** Where the record of e goes, and under which name. */
  lemma Placed(mem: seq<byte>, off: nat, dirs: Directories, files: Files, dirAt: map<Path, nat>, fileAt: map<Path, seq<byte>>,
               es: seq<Entry>, e: Entry)
    requires Represents(dirs, files, dirAt, fileAt) && dirAt.Keys == DirsIn(es) && Counted(dirs, dirAt, es)
    requires HeaderAt(mem, off, e) && MayFollow(es, e)
    ensures e.path != [] && Parent(e) in dirAt && Filled(dirs, dirAt[Parent(e)], es, Parent(e)) && CleanPath(e.path)
    ensures e.path == Parent(e) + [e.path[|e.path| - 1]] && Clean(e.path[|e.path| - 1])
    ensures Walk(dirs, None, Split(CString(mem, off)), true) == Found(dirAt[Parent(e)])
    ensures Leaf(Split(CString(mem, off))) == e.path[|e.path| - 1] + if e.ArchiveDir? then [SLASH] else []
    ensures 6 < |CString(mem, off)| < NAME_SIZE
  {
    hide *;
    PathParts(es, e);
    HeaderFacts(mem, off, e);
    LeafIs(INITRD, e.path, e.ArchiveDir?);
    var p, n, tail := Parent(e), e.path[|e.path| - 1], if e.ArchiveDir? then [[]] else [];
    RootOf(dirs, dirAt, es, p);
    assert [n] + tail == if e.ArchiveDir? then [n, []] else [n];
    WalkFromRoot(dirs, files, dirAt, fileAt, INITRD, p, n, [n] + tail, true);
  }

  lemma PathParts(es: seq<Entry>, e: Entry)
    requires MayFollow(es, e)
    ensures e.path != [] && e.path == Parent(e) + [e.path[|e.path| - 1]] && Clean(e.path[|e.path| - 1])
    ensures CleanPath(Parent(e)) && CleanPath(e.path) && Parent(e) in DirsIn(es)
  {
    hide Clean;
  }

  lemma FileStep(mem: seq<byte>, off: nat, dirs: Directories, files: Files, dirAt: map<Path, nat>, fileAt: map<Path, seq<byte>>,
                 es: seq<Entry>, e: Entry)
    requires Represents(dirs, files, dirAt, fileAt) && dirAt.Keys == DirsIn(es) && fileAt == FilesIn(es) && Counted(dirs, dirAt, es)
    requires e.ArchiveFile? && HeaderAt(mem, off, e) && MayFollow(es, e)
    ensures off + RECORD <= |mem| && FileAccepted(dirs, mem, off)
    ensures var d := Walk(dirs, None, Split(CString(mem, off)), true).dir;
            Represents(AddFile(dirs, files, d), files + [FileOf(mem, off, d)], dirAt, fileAt[e.path := e.content]) &&
            Counted(AddFile(dirs, files, d), dirAt, es + [e])
  {
    FilePlaced(mem, off, dirs, files, dirAt, fileAt, es, e);
    hide *;
    AddFileKeeps(dirs, files, dirAt, fileAt, Parent(e), FileOf(mem, off, dirAt[Parent(e)]));
    CountedFile(dirs, files, dirAt, fileAt, es, e);
  }

  lemma FilePlaced(mem: seq<byte>, off: nat, dirs: Directories, files: Files, dirAt: map<Path, nat>, fileAt: map<Path, seq<byte>>,
                   es: seq<Entry>, e: Entry)
    requires Represents(dirs, files, dirAt, fileAt) && dirAt.Keys == DirsIn(es) && fileAt == FilesIn(es) && Counted(dirs, dirAt, es)
    requires e.ArchiveFile? && HeaderAt(mem, off, e) && MayFollow(es, e)
    ensures off + RECORD <= |mem| && FileAccepted(dirs, mem, off) && Parent(e) in dirAt
    ensures Walk(dirs, None, Split(CString(mem, off)), true) == Found(dirAt[Parent(e)])
    ensures var file := FileOf(mem, off, dirAt[Parent(e)]); Parent(e) + [file.name] == e.path && file.content == e.content
    ensures e.path !in fileAt
  {
    hide *;
    Placed(mem, off, dirs, files, dirAt, fileAt, es, e);
    HeaderFacts(mem, off, e);
    HeaderAgain(mem, off, e);
    FileLimits(dirs, dirAt[Parent(e)], es, e);
    FileMade(mem, off, dirs, dirAt[Parent(e)], e);
  }

  lemma FileLimits(dirs: Directories, d: nat, es: seq<Entry>, e: Entry)
    requires MayFollow(es, e) && e.ArchiveFile? && Filled(dirs, d, es, Parent(e))
    ensures d < |dirs| && |dirs[d].files| < MAX_FILES && e.path !in FilesIn(es) && e.path != []
    ensures |e.path[|e.path| - 1]| <= MAX_NAME_LENGTH && 0 < |e.content| <= MAX_CONTENT && Content(e) == e.content
  {
  }

  lemma FileMade(mem: seq<byte>, off: nat, dirs: Directories, d: nat, e: Entry)
    requires e.ArchiveFile? && e.path != [] && off + RECORD + |e.content| <= |mem| && 0 < |e.content| <= MAX_CONTENT
    requires Walk(dirs, None, Split(CString(mem, off)), true) == Found(d) && d < |dirs| && |dirs[d].files| < MAX_FILES
    requires Leaf(Split(CString(mem, off))) == e.path[|e.path| - 1] + [] && |e.path[|e.path| - 1]| <= MAX_NAME_LENGTH
    requires 6 < |CString(mem, off)| < NAME_SIZE && Oct(mem[off + SIZE_AT .. off + SIZE_AT + 11]) == |e.content|
    requires mem[off + RECORD .. off + RECORD + |e.content|] == e.content
    ensures FileAccepted(dirs, mem, off)
    ensures var file := FileOf(mem, off, d); file.name == e.path[|e.path| - 1] && file.content == e.content
  {
    hide CString, Split, Leaf, Oct, Walk, FramesFor;
    SomeFrames(|e.content|);
    assert e.path[|e.path| - 1] + [] == e.path[|e.path| - 1];
  }

  lemma RootOf(dirs: Directories, dirAt: map<Path, nat>, es: seq<Entry>, p: Path)
    requires Counted(dirs, dirAt, es) && p in dirAt
    ensures Filled(dirs, dirAt[p], es, p)
  {
  }

  lemma CountedFile(dirs: Directories, files: Files, dirAt: map<Path, nat>, fileAt: map<Path, seq<byte>>, es: seq<Entry>, e: Entry)
    requires Represents(dirs, files, dirAt, fileAt) && Counted(dirs, dirAt, es) && Parent(e) in dirAt && e.ArchiveFile?
    ensures dirAt[Parent(e)] < |dirs| && Counted(AddFile(dirs, files, dirAt[Parent(e)]), dirAt, es + [e])
  {
    RootOf(dirs, dirAt, es, Parent(e));
    GrownBy(es, e);
    var dirs' := AddFile(dirs, files, dirAt[Parent(e)]);
    forall p | p in dirAt ensures Filled(dirs', dirAt[p], es + [e], p) {
      RootOf(dirs, dirAt, es, p);
    }
  }

  lemma DirStep(mem: seq<byte>, off: nat, dirs: Directories, files: Files, dirAt: map<Path, nat>, fileAt: map<Path, seq<byte>>,
                es: seq<Entry>, e: Entry)
    requires Represents(dirs, files, dirAt, fileAt) && dirAt.Keys == DirsIn(es) && fileAt == FilesIn(es) && Counted(dirs, dirAt, es)
    requires e.ArchiveDir? && HeaderAt(mem, off, e) && MayFollow(es, e) && WellFormed(es)
    ensures off + RECORD <= |mem| && DirAccepted(dirs, mem, off)
    ensures var d := Walk(dirs, None, Split(CString(mem, off)), true).dir;
            Represents(WithDirectory(dirs, mem, off, d), files, dirAt[e.path := |dirs|], fileAt) &&
            Counted(WithDirectory(dirs, mem, off, d), dirAt[e.path := |dirs|], es + [e])
  {
    hide *;
    Placed(mem, off, dirs, files, dirAt, fileAt, es, e);
    HeaderFacts(mem, off, e);
    HeaderAgain(mem, off, e);
    DirLimits(dirs, dirAt[Parent(e)], es, e);
    var dir, dot, dotdot := DirMade(mem, off, dirs, dirAt[Parent(e)], e);
    AddDirectoryKeeps(dirs, files, dirAt, fileAt, Parent(e), dir, dot, dotdot);
    CountedDir(dirs, files, dirAt, fileAt, es, e, dir, dot, dotdot);
  }

  lemma DirLimits(dirs: Directories, d: nat, es: seq<Entry>, e: Entry)
    requires MayFollow(es, e) && e.ArchiveDir? && Filled(dirs, d, es, Parent(e))
    ensures d < |dirs| && |dirs[d].directories| < MAX_DIRECTORIES && e.path !in DirsIn(es) && e.path != []
  {
  }

  lemma DirMade(mem: seq<byte>, off: nat, dirs: Directories, d: nat, e: Entry) returns (dir: Directory, dot: Directory, dotdot: Directory)
    requires e.ArchiveDir? && e.path != [] && off + RECORD <= |mem| && Clean(e.path[|e.path| - 1])
    requires Walk(dirs, None, Split(CString(mem, off)), true) == Found(d) && d < |dirs| && |dirs[d].directories| < MAX_DIRECTORIES
    requires Leaf(Split(CString(mem, off))) == e.path[|e.path| - 1] + [SLASH] && 6 < |CString(mem, off)| < NAME_SIZE
    ensures DirAccepted(dirs, mem, off) && WithDirectory(dirs, mem, off, d) == AddDirectory(dirs, d, dir, dot, dotdot)
    ensures dir.name == e.path[|e.path| - 1] && dir.kind == REGULAR && dir.files == []
    ensures dot.kind == SYMBOLIC && dotdot.kind == SYMBOLIC && dot.name == DOT && dotdot.name == DOTDOT
  {
    hide CString, Split, Leaf, Oct, Walk, AddDirectory;
    var n, m := e.path[|e.path| - 1], |dirs|;
    assert (n + [SLASH])[..|n|] == n;
    dir := DirOf(mem, off, d);
    dot, dotdot := LinkTo(dir, m, m, DOT, dir.mode), LinkTo(dir, m, d, DOTDOT, dirs[d].mode);
  }

  lemma CountedDir(dirs: Directories, files: Files, dirAt: map<Path, nat>, fileAt: map<Path, seq<byte>>, es: seq<Entry>, e: Entry,
                   dir: Directory, dot: Directory, dotdot: Directory)
    requires Represents(dirs, files, dirAt, fileAt) && Counted(dirs, dirAt, es) && Parent(e) in dirAt && e.ArchiveDir?
    requires e.path !in dirAt && dir.files == [] && dirAt.Keys == DirsIn(es) && WellFormed(es)
    ensures dirAt[Parent(e)] < |dirs|
    ensures Counted(AddDirectory(dirs, dirAt[Parent(e)], dir, dot, dotdot), dirAt[e.path := |dirs|], es + [e])
  {
    RootOf(dirs, dirAt, es, Parent(e));
    GrownBy(es, e);
    AddedDirectory(dirs, dirAt[Parent(e)], dir, dot, dotdot);
    var dirs', dirAt' := AddDirectory(dirs, dirAt[Parent(e)], dir, dot, dotdot), dirAt[e.path := |dirs|];
    NothingYet(es, e.path);
    hide AddDirectory;
    forall p | p in dirAt' ensures Filled(dirs', dirAt'[p], es + [e], p) {
      if p != e.path {
        RootOf(dirs, dirAt, es, p);
      }
    }
  }

  // ---------------------------------------------------------------------- looking up paths

  /** Looking up the path of a stored file, slash by slash from the root, finds that file with exactly
      its bytes; looking up another clean path finds nothing. */
  lemma StoredFile(dirs: Directories, files: Files, dirAt: map<Path, nat>, fileAt: map<Path, seq<byte>>, path: Path)
    requires Represents(dirs, files, dirAt, fileAt) && path != [] && CleanPath(path)
    ensures Walk(dirs, None, Split(Join([[]] + path)), false) != Halt
    ensures var f := FileAt(dirs, files, Join([[]] + path));
            (f.Some? <==> path in fileAt) && (f.Some? ==> f.value < |files| && files[f.value].content == fileAt[path])
  {
    var comps := [[]] + path;
    forall i | 0 <= i < |comps| ensures SLASH !in comps[i] {
      if i > 0 {
        assert comps[i] == path[i - 1] && Clean(path[i - 1]);
      }
    }
    SplitJoin(comps);
    LeafIs([], path, false);
    var p, n := path[..|path| - 1], path[|path| - 1];
    assert comps + [] == comps && [n] + [] == [n] && n + [] == n && path == p + [n] && Clean(n);
    WalkFromRoot(dirs, files, dirAt, fileAt, [], p, n, [n], false);
    assert FileLinked(dirs, files, dirAt, fileAt, path);
    hide Represents, Walk, Split, Leaf;
    if p in dirAt {
      ChildFileIs(dirs, files, dirAt, fileAt, p, n);
    }
  }
}
