/** The virtual file system (app/utils/vfs.h and vfs.cpp): a tree of directories whose
    mount points name sub-directories, with file systems as the nodes a path can
    resolve to.

    `VirtualFileSystem` subclasses (the Android asset file system) override `List`,
    `Exists` and `Open` with calls into the platform; a `Backend` value stands in for
    what those calls answer. */
module Vfs {
  import opened Wrappers

  /** `FileSystemFlag`. */
  const Readable: bv8 := 1
  const Writeable: bv8 := 2
  const Executable: bv8 := 4

  /** What a file system's own `List` and `Exists` answer: the base class's mount-point
      answers, or a platform listing and set of existing files. */
  datatype Backend = MountsOnly | Assets(listing: seq<string>, files: set<string>)

  /** `VirtualDirectory` and `VirtualFileSystem`. The parent pointer is never read and
      is left out. The root path is read only by `VirtualFileSystem::FsForPath`, and
      the one constructor that builds a file system passes "", so it is the constant
      `FsRootPath`. Mounts are held by value: a tree built bottom-up, with no shared or
      cyclic mounts. */
  datatype Node =
    | Directory(mounts: map<string, Node>)
    | FileSystem(mounts: map<string, Node>, backend: Backend)

  /** The root path every `VirtualFileSystem` is constructed with. */
  const FsRootPath: string := ""

  /** A file handle: its path and flag (`VirtualFile`). */
  datatype VirtualFile = VirtualFile(path: string, flag: bv8)

  /** The `VirtualFile` constructor, whose flag defaults to Readable. */
  function MakeVirtualFile(path: string, flag: bv8 := Readable): VirtualFile {
    VirtualFile(path, flag)
  }

  /** The `Write` stub: nothing is written. */
  function Write<T>(f: VirtualFile, item: T, count: int := 1): int {
    0
  }

  /** The `FromBuffer` stub: nothing is written. */
  function FromBuffer<T>(f: VirtualFile, items: seq<T>): int {
    0
  }

  /** `std::string::find(c)` for a character that occurs. */
  function FindChar(s: string, c: char): (i: nat)
    requires c in s
    ensures i < |s| && s[i] == c && c !in s[..i]
  {
    if s[0] == c then 0
    else
      assert c in s[1..] by {
        var k :| 0 <= k < |s| && s[k] == c;
        assert s[1..][k - 1] == c;
      }
      var i := 1 + FindChar(s[1..], c);
      assert s[..i] == [s[0]] + s[1..][..i - 1];
      i
  }

  /** `hay.find(needle) != npos`. */
  predicate Contains(hay: string, needle: string)
    decreases |hay|
  {
    needle <= hay || (|hay| > 0 && Contains(hay[1..], needle))
  }

  /** `VirtualDirectory::Mount`: `m_MountPoints[path] = dir`. */
  function Mount(n: Node, name: string, dir: Node): (n': Node)
    ensures n'.Directory? == n.Directory?
    ensures name in n'.mounts && n'.mounts[name] == dir
    ensures forall k :: k != name ==> (k in n'.mounts <==> k in n.mounts)
    ensures forall k :: k != name && k in n.mounts ==> n'.mounts[k] == n.mounts[k]
    ensures n.FileSystem? ==> n'.backend == n.backend
  {
    n.(mounts := n.mounts[name := dir])
  }

  /** `VirtualDirectory::Exists`: whether `name` is a mount point, which is whether
      the directory's own `List` names it. */
  predicate MountExists(n: Node, name: string)
    ensures MountExists(n, name) <==> name in SortedNames(n.mounts.Keys)
  {
    name in n.mounts
  }

  /** `Exists` with virtual dispatch: a platform file system answers from its files. */
  predicate Exists(n: Node, path: string)
    ensures !(n.FileSystem? && n.backend.Assets?) ==> (Exists(n, path) <==> path in List(n))
  {
    if n.FileSystem? && n.backend.Assets? then path in n.backend.files else MountExists(n, path)
  }

  // ---------------------------------------------------------------------------
  // Ordering of mount names

  /** `std::string`'s `operator<`: lexicographic by character. */
  predicate LexLess(a: string, b: string) {
    if |a| == 0 then |b| > 0
    else |b| > 0 && (a[0] < b[0] || (a[0] == b[0] && LexLess(a[1..], b[1..])))
  }

  lemma {:induction false} LexLessIrreflexive(a: string)
    ensures !LexLess(a, a)
  {
    if |a| > 0 {
      LexLessIrreflexive(a[1..]);
    }
  }

  lemma {:induction false} LexLessAsymmetric(a: string, b: string)
    ensures LexLess(a, b) ==> !LexLess(b, a)
  {
    if |a| > 0 && |b| > 0 && a[0] == b[0] {
      LexLessAsymmetric(a[1..], b[1..]);
    }
  }

  lemma {:induction false} LexLessTransitive(a: string, b: string, c: string)
    requires LexLess(a, b) && LexLess(b, c)
    ensures LexLess(a, c)
  {
    if |a| > 0 && a[0] == b[0] && b[0] == c[0] {
      LexLessTransitive(a[1..], b[1..], c[1..]);
    }
  }

  lemma {:induction false} LexLessTotal(a: string, b: string)
    requires a != b
    ensures LexLess(a, b) || LexLess(b, a)
  {
    if |a| > 0 && |b| > 0 && a[0] == b[0] {
      assert a == [a[0]] + a[1..] && b == [b[0]] + b[1..];
      LexLessTotal(a[1..], b[1..]);
    }
  }

  predicate IsLeast(m: string, keys: set<string>) {
    m in keys && forall k :: k in keys && k != m ==> LexLess(m, k)
  }

  lemma {:induction false} LeastExists(keys: set<string>)
    requires keys != {}
    ensures exists m :: IsLeast(m, keys)
    decreases |keys|
  {
    var x :| x in keys;
    if keys == {x} {
      assert IsLeast(x, keys);
    } else {
      var others := keys - {x};
      LeastExists(others);
      var m :| IsLeast(m, others);
      LexLessTotal(x, m);
      if LexLess(x, m) {
        forall k | k in keys && k != x
          ensures LexLess(x, k)
        {
          if k != m {
            LexLessTransitive(x, m, k);
          }
        }
        assert IsLeast(x, keys);
      } else {
        assert LexLess(m, x);
        forall k | k in keys && k != m
          ensures LexLess(m, k)
        {
          if k != x {
            assert k in others;
          }
        }
        assert IsLeast(m, keys);
      }
    }
  }

  lemma LeastUnique(keys: set<string>)
    ensures forall a, b :: IsLeast(a, keys) && IsLeast(b, keys) ==> a == b
  {
    forall a, b | IsLeast(a, keys) && IsLeast(b, keys)
      ensures a == b
    {
      if a != b {
        LexLessAsymmetric(a, b);
      }
    }
  }

  /** The least name of a non-empty set. */
  function Least(keys: set<string>): (m: string)
    requires keys != {}
    ensures IsLeast(m, keys)
  {
    LeastExists(keys);
    LeastUnique(keys);
    var m :| IsLeast(m, keys);
    m
  }

  predicate StrictlySorted(names: seq<string>) {
    forall i, j :: 0 <= i < j < |names| ==> LexLess(names[i], names[j])
  }

  /** The keys of a `std::map<std::string, ...>` in iteration order. */
  function SortedNames(keys: set<string>): (r: seq<string>)
    ensures forall k :: k in r <==> k in keys
    decreases |keys|
  {
    if keys == {} then []
    else
      var least := Least(keys);
      [least] + SortedNames(keys - {least})
  }

  /** Iteration order visits every key once, in ascending order. */
  lemma {:induction false} SortedNamesAscending(keys: set<string>)
    ensures StrictlySorted(SortedNames(keys))
    ensures |SortedNames(keys)| == |keys|
    decreases |keys|
  {
    if keys != {} {
      var least := Least(keys);
      var rest := keys - {least};
      SortedNamesAscending(rest);
      var r := SortedNames(keys);
      assert r == [least] + SortedNames(rest);
      forall i, j | 0 <= i < j < |r|
        ensures LexLess(r[i], r[j])
      {
        if i == 0 {
          assert r[j] in rest;
        } else {
          assert r[i] == SortedNames(rest)[i - 1] && r[j] == SortedNames(rest)[j - 1];
        }
      }
    }
  }

  /** A strictly sorted list repeats no name. */
  lemma SortedHasNoRepeats(names: seq<string>)
    requires StrictlySorted(names)
    ensures forall i, j :: 0 <= i < j < |names| ==> names[i] != names[j]
  {
    forall i, j | 0 <= i < j < |names|
      ensures names[i] != names[j]
    {
      LexLessIrreflexive(names[i]);
    }
  }

  /** `List` with virtual dispatch: the mount names in map order, or a platform listing. */
  function List(n: Node): (r: seq<string>)
    ensures !(n.FileSystem? && n.backend.Assets?) ==> forall k :: k in r <==> k in n.mounts
  {
    if n.FileSystem? && n.backend.Assets? then n.backend.listing else SortedNames(n.mounts.Keys)
  }

  /** `VirtualDirectory::List` returns each mount name exactly once, in ascending order. */
  lemma ListIsSortedMountNames(n: Node)
    requires !(n.FileSystem? && n.backend.Assets?)
    ensures var names := List(n);
      && (forall k :: k in names <==> k in n.mounts)
      && |names| == |n.mounts|
      && StrictlySorted(names)
      && (forall i, j :: 0 <= i < j < |names| ==> names[i] != names[j])
  {
    SortedNamesAscending(n.mounts.Keys);
    SortedHasNoRepeats(List(n));
  }

  // ---------------------------------------------------------------------------
  // Path resolution

  /** `VirtualDirectory::FsForPath`: a path without '/' resolves to nothing; otherwise
      the part before the first '/' must be a mount point, and the rest of the path is
      resolved there. */
  function DirectoryFsForPath(mounts: map<string, Node>, path: string): (r: Option<Node>)
    ensures r.Some? ==> r.value.FileSystem?
    decreases |path|, 0
  {
    if '/' !in path then None
    else
      var pos := FindChar(path, '/');
      var prefix := path[..pos];
      var postfix := path[pos + 1..];
      if prefix in mounts then FsForPath(mounts[prefix], postfix) else None
  }

  /** `FsForPath` with virtual dispatch. A file system first tries its mounts, then
      answers itself when its root path occurs in the path. */
  function FsForPath(n: Node, path: string): (r: Option<Node>)
    ensures r.Some? ==> r.value.FileSystem?
    decreases |path|, 1
  {
    match n
    case Directory(mounts) => DirectoryFsForPath(mounts, path)
    case FileSystem(mounts, _) =>
      var mounted := DirectoryFsForPath(mounts, path);
      if mounted.Some? then mounted
      else if Contains(path, FsRootPath) then Some(n)
      else None
  }

  /** A plain directory resolves nothing for a path without '/', nor for one whose
      first segment is not a mount point. */
  lemma DirectoryResolvesOnlyMountedPrefixes(mounts: map<string, Node>, path: string)
    ensures '/' !in path ==> FsForPath(Directory(mounts), path).None?
    ensures '/' in path && path[..FindChar(path, '/')] !in mounts ==>
      FsForPath(Directory(mounts), path).None?
  {
  }

  /** A file system asks its own mounts first; a path none of them resolves falls back
      to the file system itself, whose empty root path every path contains. So a file
      system resolves every path: to what its mounts resolve, or else to itself. */
  lemma FileSystemNeverNull(mounts: map<string, Node>, backend: Backend, path: string)
    ensures FsForPath(FileSystem(mounts, backend), path).Some?
    ensures DirectoryFsForPath(mounts, path).Some? ==>
      FsForPath(FileSystem(mounts, backend), path) == DirectoryFsForPath(mounts, path)
    ensures DirectoryFsForPath(mounts, path).None? ==>
      FsForPath(FileSystem(mounts, backend), path) == Some(FileSystem(mounts, backend))
  {
    assert FsRootPath <= path;
  }

  /** Mounting `dir` under a name without '/' makes `name/rest` resolve exactly as `rest`
      resolves in `dir`. */
  lemma MountThenResolve(mounts: map<string, Node>, name: string, dir: Node, rest: string)
    requires '/' !in name
    ensures FsForPath(Mount(Directory(mounts), name, dir), name + "/" + rest) == FsForPath(dir, rest)
  {
    var path := name + "/" + rest;
    assert path[|name|] == '/';
    assert path[..|name|] == name;
    assert path[|name| + 1..] == rest;
  }

  // ---------------------------------------------------------------------------
  // The global root

  /** `Vfs::Exists`: false without a root or without a file system for the path;
      otherwise the file system answers for the full path. */
  function VfsExists(root: Option<Node>, path: string): (b: bool)
    ensures root.None? ==> !b
    ensures root.Some? && FsForPath(root.value, path).None? ==> !b
    ensures root.Some? && FsForPath(root.value, path).Some? ==>
      (b <==> Exists(FsForPath(root.value, path).value, path))
  {
    if root.None? then false
    else
      match FsForPath(root.value, path)
      case None => false
      case Some(fs) => Exists(fs, path)
  }

  /** `Vfs::List`: the root's list for an empty directory, else the list of the file
      system the directory resolves to, else nothing. `recursive` is never read. The
      root is dereferenced unchecked, so it must be set. */
  function VfsList(root: Option<Node>, dir: string, recursive: bool): (names: seq<string>)
    requires root.Some?
    ensures dir == "" ==> names == List(root.value)
    ensures dir != "" && FsForPath(root.value, dir).None? ==> names == []
    ensures dir != "" && FsForPath(root.value, dir).Some? ==> names == List(FsForPath(root.value, dir).value)
  {
    if dir == "" then List(root.value)
    else
      match FsForPath(root.value, dir)
      case None => []
      case Some(fs) => List(fs)
  }

  /** The file system asked to open a path, and the path it is given. */
  datatype OpenRequest = OpenRequest(fs: Node, path: string)

  /** `Vfs::Open<T>` up to the call it makes: no file system is asked when none
      resolves the path (the result is then empty); otherwise the resolved file
      system's `Open` is called with the full path. What that call opens, and the
      downcast to `T`, are not modelled. The root is dereferenced unchecked, so it must
      be set. */
  function Open(root: Option<Node>, path: string): (r: Option<OpenRequest>)
    requires root.Some?
    ensures FsForPath(root.value, path).None? <==> r.None?
    ensures r.Some? ==> r.value.fs.FileSystem? && r.value.path == path
  {
    match FsForPath(root.value, path)
    case None => None
    case Some(fs) => Some(OpenRequest(fs, path))
  }

  /** With the Android asset file system as root (no mounts), existence is the platform's
      answer for the full path, and every directory lists the whole asset listing. */
  lemma AssetRootAnswersEverything(listing: seq<string>, files: set<string>, path: string, dir: string, recursive: bool)
    ensures var root := Some(FileSystem(map[], Assets(listing, files)));
      && (VfsExists(root, path) <==> path in files)
      && VfsList(root, dir, recursive) == listing
      && Open(root, path) == Some(OpenRequest(root.value, path))
  {
    var root := FileSystem(map[], Assets(listing, files));
    FileSystemNeverNull(map[], Assets(listing, files), path);
    FileSystemNeverNull(map[], Assets(listing, files), dir);
  }

  /** The flags are distinct single bits, and files are Readable by default; the
      `Write` and `FromBuffer` stubs report zero. */
  lemma FileDefaults(path: string, item: int, items: seq<int>)
    ensures Readable != 0 && Readable & (Readable - 1) == 0
    ensures Writeable != 0 && Writeable & (Writeable - 1) == 0
    ensures Executable != 0 && Executable & (Executable - 1) == 0
    ensures Readable & Writeable == 0 && Readable & Executable == 0 && Writeable & Executable == 0
    ensures MakeVirtualFile(path).flag == Readable
    ensures Write(MakeVirtualFile(path), item) == 0 && FromBuffer(MakeVirtualFile(path), items) == 0
  {
  }
}
