/** generate_directory_structure: the manifest of the directories and files
    that survive the ignore list, built during one top-down walk. */
module Manifests {
  import opened Text
  import opened Wrappers
  import opened FileTree
  import opened FileEntries
  import opened Walk

  /** A directory entry of the manifest (the keys name, path and files). */
  datatype DirEntry = DirEntry(name: string, path: string, files: seq<FileEntry>)

  /** The manifest: "dirs" holds one entry per non-root directory, "files"
      the entries of the files directly under the root. */
  datatype Manifest = Manifest(dirs: seq<DirEntry>, files: seq<FileEntry>)

  /** The arguments the walk is run with, besides the tree. */
  datatype Config = Config(githubRepo: string, giteeRepo: string, ignore: seq<string>, host: Host)

  /** os.path.basename of a directory reached through `segs`. */
  function BaseName(segs: seq<string>): string
    requires segs != []
  {
    segs[|segs| - 1]
  }

  /** `[f for f in files if f not in ignore_list]`. */
  function KeptFiles(files: seq<FileNode>, ignore: seq<string>): (r: seq<FileNode>)
    ensures forall f :: f in r <==> f in files && f.name !in ignore
  {
    if files == [] then []
    else (if files[0].name in ignore then [] else [files[0]]) + KeptFiles(files[1..], ignore)
  }

  /** `any(ignore in file for ignore in ignore_list)`: some ignore entry occurs
      in `name` as a substring. */
  predicate ContainsAny(name: string, ignore: seq<string>) {
    exists k | 0 <= k < |ignore| :: IsSubstring(ignore[k], name)
  }

  /** An exact match is a substring match. */
  lemma ExactMatchContains(name: string, ignore: seq<string>)
    requires name in ignore
    ensures ContainsAny(name, ignore)
  {
    var k :| 0 <= k < |ignore| && ignore[k] == name;
    SubstringOfItself(name);
  }

  /** The entry of a root-level file: its relative path is its name. */
  function RootFileEntry(f: FileNode, cfg: Config): FileEntry {
    CreateFileEntry(f.name, f.name, f.size, cfg.githubRepo, cfg.giteeRepo)
  }

  /** The entry of a file in the directory with relative path `relDir`:
      os.path.join(rel_dir, file) with backslashes replaced. */
  function DirFileEntry(relDir: string, f: FileNode, cfg: Config): FileEntry {
    CreateFileEntry(f.name, Replace(relDir + [cfg.host.Sep()] + f.name), f.size, cfg.githubRepo, cfg.giteeRepo)
  }

  /** The loop over the root's files: those no ignore entry occurs in. */
  function RootEntries(kept: seq<FileNode>, cfg: Config): seq<FileEntry> {
    if kept == [] then []
    else (if ContainsAny(kept[0].name, cfg.ignore) then [] else [RootFileEntry(kept[0], cfg)])
         + RootEntries(kept[1..], cfg)
  }

  /** The loop over the files of a non-root directory: those not named in the
      ignore list. */
  function DirFileEntries(kept: seq<FileNode>, relDir: string, cfg: Config): seq<FileEntry> {
    if kept == [] then []
    else (if kept[0].name in cfg.ignore then [] else [DirFileEntry(relDir, kept[0], cfg)])
         + DirFileEntries(kept[1..], relDir, cfg)
  }

  /** The entry of the non-root directory visited by `v`. */
  function DirEntryOf(v: Visit, cfg: Config): DirEntry
    requires v.segs != []
  {
    var relDir := JoinPath(v.segs, cfg.host.Sep());
    DirEntry(BaseName(v.segs), Replace(relDir), DirFileEntries(KeptFiles(v.dir.files, cfg.ignore), relDir, cfg))
  }

  /** What one iteration of the walk adds to the manifest. */
  function Step(m: Manifest, v: Visit, cfg: Config): Manifest {
    if v.segs == [] then m.(files := m.files + RootEntries(KeptFiles(v.dir.files, cfg.ignore), cfg))
    else if BaseName(v.segs) in cfg.ignore then m
    else m.(dirs := m.dirs + [DirEntryOf(v, cfg)])
  }

  /** The manifest after the iterations `vs`, in order. */
  function Collect(vs: seq<Visit>, cfg: Config): Manifest {
    if vs == [] then Manifest([], [])
    else Step(Collect(vs[..|vs| - 1], cfg), vs[|vs| - 1], cfg)
  }

  /** The manifest of `root`: the iterations of the whole walk. */
  function Structure(root: Dir, cfg: Config): Manifest {
    Collect(Visits(RootVisit(root), cfg.ignore), cfg)
  }

  /** generate_directory_structure(root_dir, github_repo, gitee_repo,
      ignore_list), walking with os.walk's own stack of pending directories
      (the next directory to enter first). */
  method GenerateDirectoryStructure(root: Dir, githubRepo: string, giteeRepo: string, ignoreList: Option<seq<string>>, host: Host)
    returns (result: Manifest)
    ensures result == Structure(root, Config(githubRepo, giteeRepo, ignoreList.GetOr([]), host))
  {
    var ignore := ignoreList.GetOr([]);
    var cfg := Config(githubRepo, giteeRepo, ignore, host);
    var dirs: seq<DirEntry> := [];
    var files: seq<FileEntry> := [];
    var stack: seq<Visit> := [RootVisit(root)];
    ghost var done: seq<Visit> := [];
    assert VisitsList(stack, ignore) == Visits(RootVisit(root), ignore) + [];
    while stack != []
      invariant done + VisitsList(stack, ignore) == Visits(RootVisit(root), ignore)
      invariant Manifest(dirs, files) == Collect(done, cfg)
      decreases SizeList(stack)
    {
      ghost var before := Manifest(dirs, files);
      var current := stack[0];
      var subdirs := Children(current, ignore);
      var kept := KeptFiles(current.dir.files, ignore);
      if current.segs == [] {
        var rootEntries := RootFileLoop(kept, cfg);
        files := files + rootEntries;
      } else {
        var dirName := BaseName(current.segs);
        if dirName !in ignore {
          var relDir := JoinPath(current.segs, host.Sep());
          var entryFiles := DirFileLoop(kept, relDir, cfg);
          dirs := dirs + [DirEntry(dirName, Replace(relDir), entryFiles)];
        }
      }
      assert Manifest(dirs, files) == Step(before, current, cfg);
      CollectSnoc(done, current, cfg);
      WalkStep(done, stack, ignore);
      StackShrinks(stack, ignore);
      stack := subdirs + stack[1..];
      done := done + [current];
    }
    assert done + VisitsList(stack, ignore) == done;
    result := Manifest(dirs, files);
  }

  lemma CollectSnoc(done: seq<Visit>, v: Visit, cfg: Config)
    ensures Collect(done + [v], cfg) == Step(Collect(done, cfg), v, cfg)
  {
    assert (done + [v])[..|done|] == done;
  }

  /** Lines 24-27: the entries of the root's files, appended one by one. */
  method RootFileLoop(kept: seq<FileNode>, cfg: Config) returns (entries: seq<FileEntry>)
    ensures entries == RootEntries(kept, cfg)
  {
    entries := [];
    var i := 0;
    while i < |kept|
      invariant 0 <= i <= |kept|
      invariant entries == RootEntries(kept[..i], cfg)
    {
      if !ContainsAny(kept[i].name, cfg.ignore) {
        entries := entries + [CreateFileEntry(kept[i].name, kept[i].name, kept[i].size, cfg.githubRepo, cfg.giteeRepo)];
      }
      RootEntriesAppend(kept[..i], [kept[i]], cfg);
      assert kept[..i + 1] == kept[..i] + [kept[i]];
      i := i + 1;
    }
    assert kept[..|kept|] == kept;
  }

  /** Lines 39-44: the entries of the files of the directory at `relDir`. */
  method DirFileLoop(kept: seq<FileNode>, relDir: string, cfg: Config) returns (entries: seq<FileEntry>)
    ensures entries == DirFileEntries(kept, relDir, cfg)
  {
    entries := [];
    var i := 0;
    while i < |kept|
      invariant 0 <= i <= |kept|
      invariant entries == DirFileEntries(kept[..i], relDir, cfg)
    {
      if kept[i].name !in cfg.ignore {
        var fileRelPath := Replace(relDir + [cfg.host.Sep()] + kept[i].name);
        entries := entries + [CreateFileEntry(kept[i].name, fileRelPath, kept[i].size, cfg.githubRepo, cfg.giteeRepo)];
      }
      DirFileEntriesAppend(kept[..i], [kept[i]], relDir, cfg);
      assert kept[..i + 1] == kept[..i] + [kept[i]];
      i := i + 1;
    }
    assert kept[..|kept|] == kept;
  }

  lemma {:induction false} KeptFilesAppend(a: seq<FileNode>, b: seq<FileNode>, ignore: seq<string>)
    ensures KeptFiles(a + b, ignore) == KeptFiles(a, ignore) + KeptFiles(b, ignore)
  {
    if a == [] {
      assert a + b == b;
    } else {
      assert (a + b)[0] == a[0] && (a + b)[1..] == a[1..] + b;
      KeptFilesAppend(a[1..], b, ignore);
    }
  }

  lemma {:induction false} RootEntriesAppend(a: seq<FileNode>, b: seq<FileNode>, cfg: Config)
    ensures RootEntries(a + b, cfg) == RootEntries(a, cfg) + RootEntries(b, cfg)
  {
    if a == [] {
      assert a + b == b;
    } else {
      assert (a + b)[0] == a[0] && (a + b)[1..] == a[1..] + b;
      RootEntriesAppend(a[1..], b, cfg);
    }
  }

  lemma {:induction false} DirFileEntriesAppend(a: seq<FileNode>, b: seq<FileNode>, relDir: string, cfg: Config)
    ensures DirFileEntries(a + b, relDir, cfg) == DirFileEntries(a, relDir, cfg) + DirFileEntries(b, relDir, cfg)
  {
    if a == [] {
      assert a + b == b;
    } else {
      assert (a + b)[0] == a[0] && (a + b)[1..] == a[1..] + b;
      DirFileEntriesAppend(a[1..], b, relDir, cfg);
    }
  }
}
