/** The directory tree that stands in for the filesystem under the scanned
    root: what os.walk, os.path.isfile and os.path.getsize would observe. */
module FileTree {
  import opened Wrappers

  /** A non-directory entry of a directory listing. `size` is the byte size
      of a regular file, None for an entry that is not one (a dangling link,
      a socket), for which os.path.isfile is false. */
  datatype FileNode = FileNode(name: string, size: Option<nat>)

  /** A directory with its files and subdirectories in listing order. */
  datatype Dir = Dir(name: string, files: seq<FileNode>, subdirs: seq<Dir>)

  /** The host whose os.path conventions produced the relative paths. */
  datatype Host = Posix | Windows {
    /** os.sep */
    function Sep(): (c: char)
      ensures c == '/' || c == '\\'
    {
      match this
      case Posix => '/'
      case Windows => '\\'
    }
  }

  /** `p` is a sequence of child indices leading from `d` to a directory. */
  ghost predicate ValidPath(d: Dir, p: seq<nat>)
    decreases |p|
  {
    p == [] || (p[0] < |d.subdirs| && ValidPath(d.subdirs[p[0]], p[1..]))
  }

  /** The directory reached from `d` through the child indices `p`. */
  ghost function NodeAt(d: Dir, p: seq<nat>): Dir
    requires ValidPath(d, p)
    decreases |p|
  {
    if p == [] then d else NodeAt(d.subdirs[p[0]], p[1..])
  }

  /** The names of the directories met on the way from `d` along `p`,
      `d` itself excluded: the segments of the root-relative path. */
  ghost function NamesAlong(d: Dir, p: seq<nat>): (r: seq<string>)
    requires ValidPath(d, p)
    ensures |r| == |p|
    decreases |p|
  {
    if p == [] then [] else [d.subdirs[p[0]].name] + NamesAlong(d.subdirs[p[0]], p[1..])
  }

  /** No directory on the way from `d` along `p`, the target included, is
      named in `ignore`: the walk does not prune the target away. */
  ghost predicate Survives(d: Dir, p: seq<nat>, ignore: seq<string>)
  {
    ValidPath(d, p) && forall k :: 0 <= k < |p| ==> NamesAlong(d, p)[k] !in ignore
  }

  /** Following `[j] + p` from `d` is following `p` from its j-th child. */
  lemma StepPath(d: Dir, j: nat, p: seq<nat>, ignore: seq<string>)
    requires j < |d.subdirs|
    ensures ValidPath(d, [j] + p) == ValidPath(d.subdirs[j], p)
    ensures ValidPath(d, [j] + p) ==>
              && NodeAt(d, [j] + p) == NodeAt(d.subdirs[j], p)
              && NamesAlong(d, [j] + p) == [d.subdirs[j].name] + NamesAlong(d.subdirs[j], p)
    ensures Survives(d, [j] + p, ignore) <==>
              d.subdirs[j].name !in ignore && Survives(d.subdirs[j], p, ignore)
  {
    assert ([j] + p)[0] == j && ([j] + p)[1..] == p;
    if ValidPath(d, [j] + p) {
      var names := NamesAlong(d, [j] + p);
      var rest := NamesAlong(d.subdirs[j], p);
      assert names == [d.subdirs[j].name] + rest;
      if Survives(d, [j] + p, ignore) {
        assert names[0] !in ignore;
        forall k | 0 <= k < |p| ensures rest[k] !in ignore {
          assert names[k + 1] == rest[k];
        }
      }
      if d.subdirs[j].name !in ignore && Survives(d.subdirs[j], p, ignore) {
        forall k | 0 <= k < |names| ensures names[k] !in ignore {
          if k > 0 { assert names[k] == rest[k - 1]; }
        }
      }
    }
  }

  /** The number of directories in `d`, `d` included. */
  function Size(d: Dir): (n: nat)
    ensures n >= 1
    decreases d, |d.subdirs| + 1
  {
    1 + SizeFrom(d, 0)
  }

  /** The number of directories under the subdirectories j.. of `d`. */
  function SizeFrom(d: Dir, j: nat): nat
    requires j <= |d.subdirs|
    decreases d, |d.subdirs| - j
  {
    if j == |d.subdirs| then 0 else Size(d.subdirs[j]) + SizeFrom(d, j + 1)
  }

  /** A prefix of a valid path is valid and meets the first directories of
      the longer path. */
  lemma {:induction false} PathPrefix(d: Dir, p: seq<nat>, q: seq<nat>)
    requires ValidPath(d, q) && |p| <= |q| && q[..|p|] == p
    ensures ValidPath(d, p) && NamesAlong(d, q)[..|p|] == NamesAlong(d, p)
    decreases |p|
  {
    if p != [] {
      assert q[0] == p[0];
      assert q[1..][..|p| - 1] == p[1..];
      PathPrefix(d.subdirs[p[0]], p[1..], q[1..]);
    }
  }
}
