/** The directories and files of kernel/src/file.c, and the paths that lead to them. Directories and
    files are numbered; the root directory is directory 0.
 */
module FileTree {
  import opened BitStream
  import opened Options
  import opened Paths

  const ROOT: nat := 0
  const MAX_DIRECTORIES: nat := 32
  const MAX_FILES: nat := 32
  const MAX_NAME_LENGTH: nat := 64
  const MAX_FULL_PATH_LENGTH: nat := 256

  const DOT: Name := [46]
  const DOTDOT: Name := [46, 46]
  const INITRD: Name := [105, 110, 105, 116, 114, 100]

  datatype Kind = REGULAR | SYMBOLIC

  datatype Directory = Directory(fullpath: seq<byte>, name: Name, parent: nat, directories: seq<nat>, files: seq<nat>,
                                 kind: Kind, link: nat, mode: nat)

  datatype File = File(fullpath: seq<byte>, name: Name, parent: nat, content: seq<byte>, mode: nat)

  type Directories = seq<Directory>
  type Files = seq<File>

  // ---------------------------------------------------------------------------- looking up

  function NameOf(dirs: Directories, d: nat): Name {
    if d < |dirs| then dirs[d].name else []
  }

  /** The place of the first entry of that name from k on. */
  function FindDir(dirs: Directories, list: seq<nat>, name: Name, k: nat): (i: nat)
    requires k <= |list|
    ensures k <= i <= |list| && (i < |list| ==> NameOf(dirs, list[i]) == name)
    ensures forall j | k <= j < i :: NameOf(dirs, list[j]) != name
    decreases |list| - k
  {
    if k == |list| || NameOf(dirs, list[k]) == name then k else FindDir(dirs, list, name, k + 1)
  }

  /** getDirectoryFromParent, following links. */
  function ChildDir(dirs: Directories, d: nat, name: Name): Option<nat> {
    if d >= |dirs| then None else
      var list := dirs[d].directories;
      var i := FindDir(dirs, list, name, 0);
      if i == |list| || list[i] >= |dirs| then None
      else Some(if dirs[list[i]].kind == SYMBOLIC then dirs[list[i]].link else list[i])
  }

  function FileName(files: Files, f: nat): Name {
    if f < |files| then files[f].name else []
  }

  function FindFile(files: Files, list: seq<nat>, name: Name, k: nat): (i: nat)
    requires k <= |list|
    ensures k <= i <= |list| && (i < |list| ==> FileName(files, list[i]) == name)
    ensures forall j | k <= j < i :: FileName(files, list[j]) != name
    decreases |list| - k
  {
    if k == |list| || FileName(files, list[k]) == name then k else FindFile(files, list, name, k + 1)
  }

  /** getFileFromParent. */
  function ChildFile(dirs: Directories, files: Files, d: nat, name: Name): Option<nat> {
    if d >= |dirs| then None else
      var i := FindFile(files, dirs[d].files, name, 0);
      if i == |dirs[d].files| then None else Some(dirs[d].files[i])
  }

  // ------------------------------------------------------------------------------ walking

  /** What findParent comes to: the kernel stops, a null pointer, or a directory. */
  datatype Outcome = Halt | Missing | Found(dir: nat)

  function Failed(init: bool): Outcome {
    if init then Halt else Missing
  }

  /** Going down from a directory, or from nowhere yet, along all components but the last one; a last
      component that is empty belongs to the one before. */
  function Walk(dirs: Directories, at: Option<nat>, comps: Path, init: bool): Outcome
    decreases |comps|
  {
    if comps == [] then Missing
    else if |comps[0]| > MAX_NAME_LENGTH then Failed(init)
    else if |comps| == 1 then (match at case None => Missing case Some(d) => Found(d))
    else if comps[1..] == [[]] then
      (match at case None => (if comps[0] == [] then Found(ROOT) else Missing) case Some(d) => Found(d))
    else if (comps[0] == INITRD && init) || comps[0] == [] then Walk(dirs, Some(ROOT), comps[1..], init)
    else match at
      case None => Halt
      case Some(d) =>
        match ChildDir(dirs, d, comps[0])
        case None => Failed(init)
        case Some(c) => Walk(dirs, Some(c), comps[1..], init)
  }

  /** The name that a path ends in, with the slash behind it if there is one. */
  function Leaf(comps: Path): seq<byte>
    requires |comps| > 0
  {
    if |comps| > 1 && comps[|comps| - 1] == [] then comps[|comps| - 2] + [SLASH] else comps[|comps| - 1]
  }

  // ----------------------------------------------------------------------- what is stored

  /** A name that a file or directory of an archive may have. */
  predicate Clean(n: Name) {
    n != [] && SLASH !in n && 0 !in n && n != DOT && n != DOTDOT && n != INITRD && |n| <= MAX_NAME_LENGTH
  }

  predicate CleanPath(p: Path) {
    forall i | 0 <= i < |p| :: Clean(p[i])
  }

  /** Entry k of directory p leads to itself or its parent, or to the directory of that name in p. */
  ghost predicate DirEntry(dirs: Directories, dirAt: map<Path, nat>, p: Path, k: nat) {
    p in dirAt && dirAt[p] < |dirs| && k < |dirs[dirAt[p]].directories| ==>
      var c := dirs[dirAt[p]].directories[k];
      c < |dirs| &&
      if dirs[c].kind == SYMBOLIC then dirs[c].name == DOT || dirs[c].name == DOTDOT
      else Clean(dirs[c].name) && p + [dirs[c].name] in dirAt && dirAt[p + [dirs[c].name]] == c
  }

  ghost predicate FileEntry(dirs: Directories, files: Files, dirAt: map<Path, nat>, fileAt: map<Path, seq<byte>>, p: Path, k: nat) {
    p in dirAt && dirAt[p] < |dirs| && k < |dirs[dirAt[p]].files| ==>
      var f := dirs[dirAt[p]].files[k];
      f < |files| && p + [files[f].name] in fileAt && fileAt[p + [files[f].name]] == files[f].content
  }

  predicate ListsDir(dirs: Directories, d: nat, c: nat) {
    d < |dirs| && c in dirs[d].directories
  }

  predicate ListsFile(dirs: Directories, files: Files, d: nat, name: Name) {
    d < |dirs| && exists f | f in dirs[d].files :: FileName(files, f) == name
  }

  /** Directory p has a parent, which lists it. */
  ghost predicate DirLinked(dirs: Directories, dirAt: map<Path, nat>, p: Path) {
    p in dirAt ==>
      dirAt[p] < |dirs| && dirs[dirAt[p]].kind == REGULAR &&
      (p != [] ==> p[..|p| - 1] in dirAt && ListsDir(dirs, dirAt[p[..|p| - 1]], dirAt[p]) && dirs[dirAt[p]].name == p[|p| - 1])
  }

  ghost predicate FileLinked(dirs: Directories, files: Files, dirAt: map<Path, nat>, fileAt: map<Path, seq<byte>>, p: Path) {
    p in fileAt ==> p != [] && p[..|p| - 1] in dirAt && ListsFile(dirs, files, dirAt[p[..|p| - 1]], p[|p| - 1])
  }

  /** dirAt and fileAt are what the directories and files stand for. */
  ghost predicate Represents(dirs: Directories, files: Files, dirAt: map<Path, nat>, fileAt: map<Path, seq<byte>>) {
    [] in dirAt && dirAt[[]] == ROOT &&
    (forall p, q | p in dirAt && q in dirAt && p != q :: dirAt[p] != dirAt[q]) &&
    (forall p :: DirLinked(dirs, dirAt, p)) &&
    (forall p, k :: DirEntry(dirs, dirAt, p, k)) &&
    (forall p :: FileLinked(dirs, files, dirAt, fileAt, p)) &&
    (forall p, k :: FileEntry(dirs, files, dirAt, fileAt, p, k))
  }

  lemma ChildDirIs(dirs: Directories, files: Files, dirAt: map<Path, nat>, fileAt: map<Path, seq<byte>>, p: Path, n: Name)
    requires Represents(dirs, files, dirAt, fileAt) && p in dirAt && Clean(n)
    ensures ChildDir(dirs, dirAt[p], n) == if p + [n] in dirAt then Some(dirAt[p + [n]]) else None
  {
    assert DirLinked(dirs, dirAt, p) && DirLinked(dirs, dirAt, p + [n]);
    var list := dirs[dirAt[p]].directories;
    var i := FindDir(dirs, list, n, 0);
    assert (p + [n])[..|p|] == p;
    if i < |list| {
      assert DirEntry(dirs, dirAt, p, i);
    }
    if p + [n] in dirAt {
      DirFound(dirs, list, n, dirAt[p + [n]]);
    }
  }

  lemma DirFound(dirs: Directories, list: seq<nat>, n: Name, c: nat)
    requires c in list && NameOf(dirs, c) == n
    ensures FindDir(dirs, list, n, 0) < |list|
  {
    var k: nat :| k < |list| && list[k] == c;
    assert FindDir(dirs, list, n, 0) <= k;
  }

  lemma FileFound(files: Files, list: seq<nat>, n: Name, f: nat)
    requires f in list && FileName(files, f) == n
    ensures FindFile(files, list, n, 0) < |list|
  {
    var k: nat :| k < |list| && list[k] == f;
    assert FindFile(files, list, n, 0) <= k;
  }

  lemma ChildFileIs(dirs: Directories, files: Files, dirAt: map<Path, nat>, fileAt: map<Path, seq<byte>>, p: Path, n: Name)
    requires Represents(dirs, files, dirAt, fileAt) && p in dirAt
    ensures var f := ChildFile(dirs, files, dirAt[p], n);
            (f.Some? <==> p + [n] in fileAt) && (f.Some? ==> f.value < |files| && files[f.value].content == fileAt[p + [n]])
  {
    assert DirLinked(dirs, dirAt, p) && FileLinked(dirs, files, dirAt, fileAt, p + [n]);
    var list := dirs[dirAt[p]].files;
    var i := FindFile(files, list, n, 0);
    assert (p + [n])[..|p|] == p;
    if i < |list| {
      assert FileEntry(dirs, files, dirAt, fileAt, p, i);
    }
    if p + [n] in fileAt {
      var f :| f in list && FileName(files, f) == n;
      FileFound(files, list, n, f);
    }
  }

  /** Walking down a stored path from directory p; tail is the last name, with or without a slash. */
  lemma {:induction false} WalkIs(dirs: Directories, files: Files, dirAt: map<Path, nat>, fileAt: map<Path, seq<byte>>,
                                  p: Path, down: Path, n: Name, tail: Path, init: bool)
    requires Represents(dirs, files, dirAt, fileAt) && p in dirAt && CleanPath(down) && Clean(n) && (tail == [n] || tail == [n, []])
    ensures Walk(dirs, Some(dirAt[p]), down + tail, init) == if p + down in dirAt then Found(dirAt[p + down]) else Failed(init)
    decreases |down|
  {
    var comps := down + tail;
    if down == [] {
      assert comps == tail && p + down == p;
    } else {
      assert comps[0] == down[0] && comps[1..] == down[1..] + tail && Clean(down[0]);
      assert |comps[1..]| >= 1 && comps[1..] != [[]] by {
        if |down| == 1 { assert comps[1..] == tail; } else { assert comps[1..][0] == down[1] && Clean(down[1]); }
      }
      ChildDirIs(dirs, files, dirAt, fileAt, p, down[0]);
      assert p + down == (p + [down[0]]) + down[1..];
      if p + [down[0]] in dirAt {
        hide Represents;
        WalkIs(dirs, files, dirAt, fileAt, p + [down[0]], down[1..], n, tail, init);
      } else {
        NoChild(dirs, files, dirAt, fileAt, p + [down[0]], down[1..]);
      }
    }
  }

  /** Below a directory that is not there is no directory. */
  lemma {:induction false} NoChild(dirs: Directories, files: Files, dirAt: map<Path, nat>, fileAt: map<Path, seq<byte>>, p: Path, down: Path)
    requires Represents(dirs, files, dirAt, fileAt) && p !in dirAt
    ensures p + down !in dirAt
    decreases |down|
  {
    if down == [] {
      assert p + down == p;
    } else {
      NoChild(dirs, files, dirAt, fileAt, p, down[..|down| - 1]);
      assert DirLinked(dirs, dirAt, p + down);
      assert (p + down)[..|p + down| - 1] == p + down[..|down| - 1];
    }
  }

  /** From the outside: behind initrd when loading, behind the first slash when looking up. */
  lemma WalkFromRoot(dirs: Directories, files: Files, dirAt: map<Path, nat>, fileAt: map<Path, seq<byte>>,
                     head: Name, down: Path, n: Name, tail: Path, init: bool)
    requires Represents(dirs, files, dirAt, fileAt) && CleanPath(down) && Clean(n) && (tail == [n] || tail == [n, []])
    requires head == [] || (head == INITRD && init)
    ensures Walk(dirs, None, [head] + down + tail, init) == if down in dirAt then Found(dirAt[down]) else Failed(init)
  {
    var comps := [head] + down + tail;
    assert comps[1..] == down + tail && [] + down == down;
    assert comps[1..] != [[]] by {
      if down == [] { assert comps[1..] == tail; } else { assert comps[1..][0] == down[0] && Clean(down[0]); }
    }
    WalkIs(dirs, files, dirAt, fileAt, [], down, n, tail, init);
  }

  // ------------------------------------------------------------------------------- adding

  function AddFile(dirs: Directories, files: Files, d: nat): Directories
    requires d < |dirs|
  {
    dirs[d := dirs[d].(files := dirs[d].files + [|files|])]
  }

  lemma AddFileKeeps(dirs: Directories, files: Files, dirAt: map<Path, nat>, fileAt: map<Path, seq<byte>>, p: Path, file: File)
    requires Represents(dirs, files, dirAt, fileAt) && p in dirAt && p + [file.name] !in fileAt
    ensures dirAt[p] < |dirs|
    ensures Represents(AddFile(dirs, files, dirAt[p]), files + [file], dirAt, fileAt[p + [file.name] := file.content])
  {
    assert DirLinked(dirs, dirAt, p);
    var dirs', files', fileAt' := AddFile(dirs, files, dirAt[p]), files + [file], fileAt[p + [file.name] := file.content];
    forall q ensures DirLinked(dirs', dirAt, q) && FileLinked(dirs', files', dirAt, fileAt', q) {
      assert DirLinked(dirs, dirAt, q) && FileLinked(dirs, files, dirAt, fileAt, q);
      AddFileLinked(dirs, files, dirAt, fileAt, p, file, q);
    }
    forall q, k ensures DirEntry(dirs', dirAt, q, k) {
      assert DirEntry(dirs, dirAt, q, k);
    }
    forall q, k ensures FileEntry(dirs', files', dirAt, fileAt', q, k) {
      assert FileEntry(dirs, files, dirAt, fileAt, q, k) && DirLinked(dirs, dirAt, q);
    }
  }

  lemma AddFileLinked(dirs: Directories, files: Files, dirAt: map<Path, nat>, fileAt: map<Path, seq<byte>>, p: Path, file: File, q: Path)
    requires Represents(dirs, files, dirAt, fileAt) && p in dirAt && dirAt[p] < |dirs|
    requires FileLinked(dirs, files, dirAt, fileAt, q) && DirLinked(dirs, dirAt, q)
    ensures FileLinked(AddFile(dirs, files, dirAt[p]), files + [file], dirAt, fileAt[p + [file.name] := file.content], q)
    ensures DirLinked(AddFile(dirs, files, dirAt[p]), dirAt, q)
  {
    var dirs', files' := AddFile(dirs, files, dirAt[p]), files + [file];
    if q == p + [file.name] {
      assert q[..|q| - 1] == p && q[|q| - 1] == file.name;
      assert |files| in dirs'[dirAt[p]].files && FileName(files', |files|) == file.name;
    } else if q in fileAt {
      var o := q[..|q| - 1];
      var f :| f in dirs[dirAt[o]].files && FileName(files, f) == q[|q| - 1];
      var k: nat :| k < |dirs[dirAt[o]].files| && dirs[dirAt[o]].files[k] == f;
      assert FileEntry(dirs, files, dirAt, fileAt, o, k);
      assert f in dirs'[dirAt[o]].files && FileName(files', f) == q[|q| - 1];
    }
  }

  /** A new directory with its two links. */
  function AddDirectory(dirs: Directories, d: nat, dir: Directory, dot: Directory, dotdot: Directory): Directories
    requires d < |dirs|
  {
    dirs[d := dirs[d].(directories := dirs[d].directories + [|dirs|])] + [dir.(directories := [|dirs| + 1, |dirs| + 2]), dot, dotdot]
  }

  lemma AddDirectoryKeeps(dirs: Directories, files: Files, dirAt: map<Path, nat>, fileAt: map<Path, seq<byte>>, p: Path,
                          dir: Directory, dot: Directory, dotdot: Directory)
    requires Represents(dirs, files, dirAt, fileAt) && p in dirAt && Clean(dir.name) && p + [dir.name] !in dirAt
    requires dir.kind == REGULAR && dir.files == [] && dot.kind == SYMBOLIC && dotdot.kind == SYMBOLIC && dot.name == DOT && dotdot.name == DOTDOT
    ensures dirAt[p] < |dirs|
    ensures Represents(AddDirectory(dirs, dirAt[p], dir, dot, dotdot), files, dirAt[p + [dir.name] := |dirs|], fileAt)
  {
    assert DirLinked(dirs, dirAt, p);
    var dirs', dirAt' := AddDirectory(dirs, dirAt[p], dir, dot, dotdot), dirAt[p + [dir.name] := |dirs|];
    AddedDirectory(dirs, dirAt[p], dir, dot, dotdot);
    assert forall q | q in dirAt :: DirLinked(dirs, dirAt, q);
    hide AddDirectory;
    forall q ensures DirLinked(dirs', dirAt', q) && FileLinked(dirs', files, dirAt', fileAt, q) {
      AddDirectoryLinked(dirs, files, dirAt, fileAt, p, dir, dot, dotdot, q);
    }
    forall q, k ensures DirEntry(dirs', dirAt', q, k) && FileEntry(dirs', files, dirAt', fileAt, q, k) {
      AddDirectoryEntry(dirs, files, dirAt, fileAt, p, dir, dot, dotdot, q, k);
    }
  }

  lemma AddedDirectory(dirs: Directories, d: nat, dir: Directory, dot: Directory, dotdot: Directory)
    requires d < |dirs|
    ensures var dirs', n := AddDirectory(dirs, d, dir, dot, dotdot), |dirs|;
            |dirs'| == n + 3 && dirs'[n] == dir.(directories := [n + 1, n + 2]) && dirs'[n + 1] == dot && dirs'[n + 2] == dotdot &&
            forall c | 0 <= c < n :: dirs'[c] == if c == d then dirs[d].(directories := dirs[d].directories + [n]) else dirs[c]
  {
  }

  lemma AddDirectoryLinked(dirs: Directories, files: Files, dirAt: map<Path, nat>, fileAt: map<Path, seq<byte>>, p: Path,
                           dir: Directory, dot: Directory, dotdot: Directory, q: Path)
    requires Represents(dirs, files, dirAt, fileAt) && p in dirAt && dirAt[p] < |dirs| && p + [dir.name] !in dirAt && dir.kind == REGULAR
    ensures DirLinked(AddDirectory(dirs, dirAt[p], dir, dot, dotdot), dirAt[p + [dir.name] := |dirs|], q)
    ensures FileLinked(AddDirectory(dirs, dirAt[p], dir, dot, dotdot), files, dirAt[p + [dir.name] := |dirs|], fileAt, q)
  {
    var dirs' := AddDirectory(dirs, dirAt[p], dir, dot, dotdot);
    AddedDirectory(dirs, dirAt[p], dir, dot, dotdot);
    assert DirLinked(dirs, dirAt, q) && FileLinked(dirs, files, dirAt, fileAt, q);
    hide AddDirectory;
    if q == p + [dir.name] {
      assert q[..|q| - 1] == p;
      assert |dirs| in dirs'[dirAt[p]].directories;
    } else if q in dirAt && q != [] {
      var o := q[..|q| - 1];
      assert DirLinked(dirs, dirAt, o);
      assert dirAt[q] in dirs[dirAt[o]].directories;
      assert dirAt[q] in dirs'[dirAt[o]].directories;
    }
    if q in fileAt {
      var o := q[..|q| - 1];
      assert DirLinked(dirs, dirAt, o);
      assert dirs'[dirAt[o]].files == dirs[dirAt[o]].files;
    }
  }

  lemma AddDirectoryEntry(dirs: Directories, files: Files, dirAt: map<Path, nat>, fileAt: map<Path, seq<byte>>, p: Path,
                          dir: Directory, dot: Directory, dotdot: Directory, q: Path, k: nat)
    requires Represents(dirs, files, dirAt, fileAt) && p in dirAt && dirAt[p] < |dirs| && Clean(dir.name) && p + [dir.name] !in dirAt
    requires dir.kind == REGULAR && dir.files == [] && dot.kind == SYMBOLIC && dotdot.kind == SYMBOLIC && dot.name == DOT && dotdot.name == DOTDOT
    ensures DirEntry(AddDirectory(dirs, dirAt[p], dir, dot, dotdot), dirAt[p + [dir.name] := |dirs|], q, k)
    ensures FileEntry(AddDirectory(dirs, dirAt[p], dir, dot, dotdot), files, dirAt[p + [dir.name] := |dirs|], fileAt, q, k)
  {
    AddedDirectory(dirs, dirAt[p], dir, dot, dotdot);
    assert DirEntry(dirs, dirAt, q, k) && FileEntry(dirs, files, dirAt, fileAt, q, k) && DirLinked(dirs, dirAt, q);
    hide AddDirectory, Clean;
    if q in dirAt && q != p + [dir.name] && dirAt[q] == dirAt[p] {
      assert q == p;
    }
  }
}
