/** What the manifest promises about the tree it was built from: which
    directories and files appear, each how often, and the shape of every path
    and URL. */
module ManifestProperties {
  import opened Text
  import opened FileTree
  import opened FileEntries
  import opened Walk
  import opened Manifests

  /** Every iteration after the first is a non-root directory whose name is
      not in the ignore list. */
  predicate RestKept(vs: seq<Visit>, ignore: seq<string>) {
    forall i :: 1 <= i < |vs| ==> vs[i].segs != [] && BaseName(vs[i].segs) !in ignore
  }

  /** `ds` holds one entry per iteration after the first, in order. */
  predicate DirsMatch(ds: seq<DirEntry>, vs: seq<Visit>, cfg: Config)
    requires RestKept(vs, cfg.ignore)
  {
    |ds| + 1 == |vs| && forall i :: 0 <= i < |ds| ==> ds[i] == DirEntryOf(vs[i + 1], cfg)
  }

  lemma StepKept(m: Manifest, v: Visit, cfg: Config)
    requires v.segs != [] && BaseName(v.segs) !in cfg.ignore
    ensures Step(m, v, cfg) == Manifest(m.dirs + [DirEntryOf(v, cfg)], m.files)
  {
  }

  /** Folding the walk: the root's iteration alone gives "files". */
  lemma {:induction false} CollectFiles(vs: seq<Visit>, cfg: Config)
    requires |vs| >= 1 && vs[0].segs == [] && RestKept(vs, cfg.ignore)
    ensures Collect(vs, cfg).files == RootEntries(KeptFiles(vs[0].dir.files, cfg.ignore), cfg)
  {
    var n := |vs|;
    if n == 1 {
      assert vs[..0] == [];
    } else {
      var init := vs[..n - 1];
      assert init[0] == vs[0];
      assert RestKept(init, cfg.ignore);
      CollectFiles(init, cfg);
      StepKept(Collect(init, cfg), vs[n - 1], cfg);
    }
  }

  /** Folding the walk: every iteration after the root's gives one entry of
      "dirs", in order. */
  lemma {:induction false} CollectDirs(vs: seq<Visit>, cfg: Config)
    requires |vs| >= 1 && vs[0].segs == [] && RestKept(vs, cfg.ignore)
    ensures DirsMatch(Collect(vs, cfg).dirs, vs, cfg)
  {
    var n := |vs|;
    if n == 1 {
      assert vs[..0] == [];
    } else {
      var init, last := vs[..n - 1], vs[n - 1];
      assert RestKept(init, cfg.ignore);
      CollectDirs(init, cfg);
      var d0 := Collect(init, cfg).dirs;
      StepKept(Collect(init, cfg), last, cfg);
      var d1 := Collect(vs, cfg).dirs;
      assert d1 == d0 + [DirEntryOf(last, cfg)];
      forall i | 0 <= i < |d1| ensures d1[i] == DirEntryOf(vs[i + 1], cfg) {
        if i < |d0| {
          assert d0[i] == DirEntryOf(init[i + 1], cfg);
          assert init[i + 1] == vs[i + 1];
        }
      }
    }
  }

  /** Lines 19 and 30-31: since a subdirectory named in the ignore list is
      never entered, the later test of the directory's own name never skips
      an iteration. */
  lemma DirNameCheckNeverFires(root: Dir, ignore: seq<string>)
    ensures var vs := Visits(RootVisit(root), ignore);
      |vs| >= 1 && vs[0] == RootVisit(root) && RestKept(vs, ignore)
  {
    var vs := Visits(RootVisit(root), ignore);
    RootWalk(root, ignore);
    forall i | 1 <= i < |vs| ensures vs[i].segs != [] && BaseName(vs[i].segs) !in ignore {
      assert vs[0].at != vs[i].at;
      var n := |vs[i].at|;
      assert NamesAlong(root, vs[i].at)[n - 1] !in ignore;
    }
  }

  /** "dirs" has one entry per iteration after the root's, in walk order. */
  lemma DirsFollowWalk(root: Dir, cfg: Config)
    ensures RestKept(Visits(RootVisit(root), cfg.ignore), cfg.ignore)
    ensures DirsMatch(Structure(root, cfg).dirs, Visits(RootVisit(root), cfg.ignore), cfg)
  {
    DirNameCheckNeverFires(root, cfg.ignore);
    CollectDirs(Visits(RootVisit(root), cfg.ignore), cfg);
  }

  /** "files" comes from the root's own files only. */
  lemma FilesFromRoot(root: Dir, cfg: Config)
    ensures Structure(root, cfg).files == RootEntries(KeptFiles(root.files, cfg.ignore), cfg)
  {
    DirNameCheckNeverFires(root, cfg.ignore);
    CollectFiles(Visits(RootVisit(root), cfg.ignore), cfg);
  }

  /** The positions of the directories behind the entries of "dirs", in order. */
  ghost function DirPositions(root: Dir, ignore: seq<string>): (ps: seq<seq<nat>>)
  {
    var vs := Visits(RootVisit(root), ignore);
    VisitsUnfold(RootVisit(root), ignore);
    seq(|vs| - 1, i requires 0 <= i < |vs| - 1 => vs[i + 1].at)
  }

  /** The entry the walk writes for the directory at position `p`. */
  ghost function DirEntryAt(root: Dir, p: seq<nat>, cfg: Config): DirEntry
    requires ValidPath(root, p) && p != []
  {
    DirEntryOf(Visit(NamesAlong(root, p), p, NodeAt(root, p)), cfg)
  }

  /** Every entry of "dirs" belongs to a directory that the walk keeps: no
      directory on its path from the root, itself included, is named in the
      ignore list. Every such directory other than the root has exactly one
      entry, whether or not it holds files, and the entries follow the
      walk's pre-order. */
  lemma DirsAreSurvivingDirectories(root: Dir, cfg: Config)
    ensures var m := Structure(root, cfg);
            var ps := DirPositions(root, cfg.ignore);
      && |m.dirs| == |ps|
      && (forall i :: 0 <= i < |ps| ==>
            ps[i] != [] && Survives(root, ps[i], cfg.ignore) && m.dirs[i] == DirEntryAt(root, ps[i], cfg))
      && (forall i, k :: 0 <= i < k < |ps| ==> ps[i] != ps[k])
      && (forall p :: p != [] && Survives(root, p, cfg.ignore) ==> p in ps)
  {
    var ignore := cfg.ignore;
    var vs := Visits(RootVisit(root), ignore);
    var ps := DirPositions(root, ignore);
    var ds := Structure(root, cfg).dirs;
    RootWalk(root, ignore);
    DirsFollowWalk(root, cfg);
    forall i | 0 <= i < |ps|
      ensures ps[i] != [] && Survives(root, ps[i], ignore) && ds[i] == DirEntryAt(root, ps[i], cfg)
    {
      var v := vs[i + 1];
      assert ps[i] == v.at;
      assert vs[0].at != v.at;
      assert v == Visit(NamesAlong(root, ps[i]), ps[i], NodeAt(root, ps[i]));
      assert ds[i] == DirEntryOf(v, cfg);
    }
    forall p | p != [] && Survives(root, p, ignore) ensures p in ps {
      var i :| 0 <= i < |vs| && vs[i].at == p;
      assert i != 0;
      assert ps[i - 1] == p;
    }
  }

  /** The pruning: once a directory is named in the ignore list, neither it nor
      any directory below it has an entry in "dirs". */
  lemma IgnoredSubtreeAbsent(root: Dir, cfg: Config, p: seq<nat>, q: seq<nat>)
    requires ValidPath(root, p) && p != [] && BaseName(NamesAlong(root, p)) in cfg.ignore
    requires ValidPath(root, q) && |p| <= |q| && q[..|p|] == p
    ensures q !in DirPositions(root, cfg.ignore)
  {
    DirsAreSurvivingDirectories(root, cfg);
    PathPrefix(root, p, q);
    var names := NamesAlong(root, q);
    assert names[|p| - 1] == NamesAlong(root, p)[|p| - 1];
    assert !Survives(root, q, cfg.ignore);
  }

  // ---------------------------------------------------------------- root files

  lemma {:induction false} RootEntriesMember(kept: seq<FileNode>, cfg: Config, f: FileNode)
    requires f in kept && !ContainsAny(f.name, cfg.ignore)
    ensures RootFileEntry(f, cfg) in RootEntries(kept, cfg)
  {
    RootEntriesAppend([kept[0]], kept[1..], cfg);
    assert kept == [kept[0]] + kept[1..];
    if kept[0] != f {
      RootEntriesMember(kept[1..], cfg, f);
    }
  }

  lemma {:induction false} RootEntriesSound(kept: seq<FileNode>, cfg: Config, e: FileEntry)
    requires e in RootEntries(kept, cfg)
    ensures exists j :: 0 <= j < |kept| && e == RootFileEntry(kept[j], cfg) && !ContainsAny(kept[j].name, cfg.ignore)
  {
    var head := if ContainsAny(kept[0].name, cfg.ignore) then [] else [RootFileEntry(kept[0], cfg)];
    assert RootEntries(kept, cfg) == head + RootEntries(kept[1..], cfg);
    if e !in head {
      RootEntriesSound(kept[1..], cfg, e);
      var j :| 0 <= j < |kept[1..]| && e == RootFileEntry(kept[1..][j], cfg) && !ContainsAny(kept[1..][j].name, cfg.ignore);
      assert kept[1..][j] == kept[j + 1];
    }
  }

  /** Lines 21 and 26: a file directly under the root is listed in "files"
      exactly when no ignore entry occurs in its name (an exact match being
      one such occurrence). */
  lemma RootFileRule(root: Dir, cfg: Config, f: FileNode)
    requires f in root.files
    ensures RootFileEntry(f, cfg) in Structure(root, cfg).files <==> !ContainsAny(f.name, cfg.ignore)
  {
    FilesFromRoot(root, cfg);
    var kept := KeptFiles(root.files, cfg.ignore);
    if f.name in cfg.ignore {
      ExactMatchContains(f.name, cfg.ignore);
    }
    if !ContainsAny(f.name, cfg.ignore) {
      RootEntriesMember(kept, cfg, f);
    }
    if RootFileEntry(f, cfg) in Structure(root, cfg).files {
      RootEntriesSound(kept, cfg, RootFileEntry(f, cfg));
      var j :| 0 <= j < |kept| && RootFileEntry(f, cfg) == RootFileEntry(kept[j], cfg) && !ContainsAny(kept[j].name, cfg.ignore);
      assert kept[j].name == f.name;
    }
  }

  /** Every entry of "files" is the entry of a file directly under the root
      whose name no ignore entry occurs in. */
  lemma RootFilesSound(root: Dir, cfg: Config, e: FileEntry)
    requires e in Structure(root, cfg).files
    ensures exists j :: 0 <= j < |root.files| && e == RootFileEntry(root.files[j], cfg)
                        && !ContainsAny(root.files[j].name, cfg.ignore)
  {
    FilesFromRoot(root, cfg);
    var kept := KeptFiles(root.files, cfg.ignore);
    RootEntriesSound(kept, cfg, e);
    var j :| 0 <= j < |kept| && e == RootFileEntry(kept[j], cfg) && !ContainsAny(kept[j].name, cfg.ignore);
    assert kept[j] in root.files;
    var i :| 0 <= i < |root.files| && root.files[i] == kept[j];
  }

  /** Line 27: a root-level file's entry has the file's name, its size, and
      the name itself as path (with backslashes turned into slashes). */
  lemma RootFileShape(f: FileNode, cfg: Config)
    ensures var e := RootFileEntry(f, cfg);
      && e.name == f.name
      && e.size == f.size.GetOr(0)
      && e.path == Replace(f.name)
      && ('\\' !in f.name ==> e.path == e.name)
  {
    if '\\' !in f.name {
      ReplaceIdentity(f.name);
    }
  }

  lemma {:induction false} RootEntriesEmpty(kept: seq<FileNode>, cfg: Config)
    requires "" in cfg.ignore
    ensures RootEntries(kept, cfg) == []
  {
    if kept != [] {
      var k :| 0 <= k < |cfg.ignore| && cfg.ignore[k] == "";
      EmptyIsSubstring(kept[0].name);
      assert IsSubstring(cfg.ignore[k], kept[0].name);
      RootEntriesEmpty(kept[1..], cfg);
    }
  }

  /** Line 26 tests for a substring: an empty ignore entry occurs in every
      name, so it drops every file directly under the root. */
  lemma EmptyEntryHidesRootFiles(root: Dir, cfg: Config)
    requires "" in cfg.ignore
    ensures Structure(root, cfg).files == []
  {
    FilesFromRoot(root, cfg);
    RootEntriesEmpty(KeptFiles(root.files, cfg.ignore), cfg);
  }

  // ------------------------------------------------------ directory entries

  /** Line 40: the files loop runs over files already filtered at line 21,
      so its test never skips one: every kept file gets an entry, in order. */
  lemma {:induction false} FileNameCheckNeverFires(kept: seq<FileNode>, relDir: string, cfg: Config)
    requires forall j :: 0 <= j < |kept| ==> kept[j].name !in cfg.ignore
    ensures var es := DirFileEntries(kept, relDir, cfg);
      |es| == |kept| && forall j :: 0 <= j < |kept| ==> es[j] == DirFileEntry(relDir, kept[j], cfg)
  {
    if kept != [] {
      FileNameCheckNeverFires(kept[1..], relDir, cfg);
      var es := DirFileEntries(kept, relDir, cfg);
      var tail := DirFileEntries(kept[1..], relDir, cfg);
      assert es == [DirFileEntry(relDir, kept[0], cfg)] + tail;
      forall j | 0 <= j < |kept| ensures es[j] == DirFileEntry(relDir, kept[j], cfg) {
        if j > 0 {
          assert es[j] == tail[j - 1];
          assert kept[1..][j - 1] == kept[j];
        }
      }
    }
  }

  /** Lines 43-44: the path of a file in a directory is the directory's path,
      a forward slash and the file's name with its backslashes turned into
      forward slashes; name and size come from the file itself. */
  lemma DirFileShape(relDir: string, f: FileNode, cfg: Config)
    ensures var e := DirFileEntry(relDir, f, cfg);
      && e.name == f.name
      && e.size == f.size.GetOr(0)
      && e.path == Replace(relDir) + "/" + Replace(f.name)
  {
    var sep := cfg.host.Sep();
    ReplaceAppend(relDir + [sep], f.name);
    ReplaceAppend(relDir, [sep]);
    assert Replace([sep]) == "/";
    ReplaceIdempotent(relDir + [sep] + f.name);
  }

  /** Lines 33-46: the entry of a kept non-root directory. Its name is the
      directory's own name, its path the root-relative path with forward
      slashes only, and its files are the directory's files not named in the
      ignore list, in listing order, each under the directory's path. */
  lemma DirEntryShape(root: Dir, p: seq<nat>, cfg: Config)
    requires ValidPath(root, p) && p != []
    ensures var e := DirEntryAt(root, p, cfg);
            var names := NamesAlong(root, p);
            var relDir := JoinPath(names, cfg.host.Sep());
            var kept := KeptFiles(NodeAt(root, p).files, cfg.ignore);
      && e.name == names[|names| - 1]
      && e.path == Replace(relDir)
      && '\\' !in e.path
      && |e.files| == |kept|
      && (forall j :: 0 <= j < |kept| ==> e.files[j] == DirFileEntry(relDir, kept[j], cfg))
      && (forall j :: 0 <= j < |e.files| ==> e.files[j].path == e.path + "/" + Replace(e.files[j].name))
  {
    var names := NamesAlong(root, p);
    var relDir := JoinPath(names, cfg.host.Sep());
    var kept := KeptFiles(NodeAt(root, p).files, cfg.ignore);
    var e := DirEntryAt(root, p, cfg);
    assert forall j :: 0 <= j < |kept| ==> kept[j] in kept;
    FileNameCheckNeverFires(kept, relDir, cfg);
    forall j | 0 <= j < |e.files| ensures e.files[j].path == e.path + "/" + Replace(e.files[j].name) {
      DirFileShape(relDir, kept[j], cfg);
    }
  }

  /** A file of a non-root directory gets an entry in that directory's entry
      exactly when its name is not in the ignore list. */
  lemma DirFileRule(root: Dir, p: seq<nat>, cfg: Config, f: FileNode)
    requires ValidPath(root, p) && p != [] && f in NodeAt(root, p).files
    ensures DirFileEntry(JoinPath(NamesAlong(root, p), cfg.host.Sep()), f, cfg) in DirEntryAt(root, p, cfg).files
            <==> f.name !in cfg.ignore
  {
    var relDir := JoinPath(NamesAlong(root, p), cfg.host.Sep());
    var kept := KeptFiles(NodeAt(root, p).files, cfg.ignore);
    var e := DirEntryAt(root, p, cfg);
    DirEntryShape(root, p, cfg);
    if f.name !in cfg.ignore {
      assert f in kept;
      var j :| 0 <= j < |kept| && kept[j] == f;
      assert e.files[j] == DirFileEntry(relDir, f, cfg);
    }
    if DirFileEntry(relDir, f, cfg) in e.files {
      var j :| 0 <= j < |e.files| && e.files[j] == DirFileEntry(relDir, f, cfg);
      assert kept[j] in kept;
      DirFileShape(relDir, f, cfg);
      DirFileShape(relDir, kept[j], cfg);
    }
  }

  /** The path of a directory below another is its parent's path, a slash
      and its own name with backslashes turned into slashes. */
  lemma ParentPath(root: Dir, p: seq<nat>, cfg: Config)
    requires ValidPath(root, p) && |p| >= 2
    ensures ValidPath(root, p[..|p| - 1])
    ensures DirEntryAt(root, p, cfg).path
            == DirEntryAt(root, p[..|p| - 1], cfg).path + "/" + Replace(DirEntryAt(root, p, cfg).name)
  {
    var n := |p|;
    var sep := cfg.host.Sep();
    PathPrefix(root, p[..n - 1], p);
    var names := NamesAlong(root, p);
    assert names[..n - 1] == NamesAlong(root, p[..n - 1]);
    var parent := JoinPath(names[..n - 1], sep);
    assert JoinPath(names, sep) == parent + [sep] + names[n - 1];
    ReplaceAppend(parent + [sep], names[n - 1]);
    ReplaceAppend(parent, [sep]);
    assert Replace([sep]) == "/";
  }

  /** The last segment of a directory's path is its name, when the name holds
      no slash of either kind. */
  lemma DirPathEndsWithName(root: Dir, p: seq<nat>, cfg: Config)
    requires ValidPath(root, p) && p != []
    requires '/' !in DirEntryAt(root, p, cfg).name && '\\' !in DirEntryAt(root, p, cfg).name
    ensures LastSegment(DirEntryAt(root, p, cfg).path) == DirEntryAt(root, p, cfg).name
  {
    var e := DirEntryAt(root, p, cfg);
    ReplaceIdentity(e.name);
    if |p| == 1 {
      assert JoinPath(NamesAlong(root, p), cfg.host.Sep()) == e.name;
      LastSegmentNoSlash(e.name);
    } else {
      ParentPath(root, p, cfg);
      LastSegmentAfterSlash(DirEntryAt(root, p[..|p| - 1], cfg).path, e.name);
    }
  }

  // ------------------------------------------------------------ the manifest

  /** Every file entry listed under "dirs" is the entry of a file, not named in
      the ignore list, of a directory that the walk keeps; so no file below a
      pruned directory appears (with IgnoredSubtreeAbsent and RootFilesSound). */
  lemma FileOfSurvivingDirectory(root: Dir, cfg: Config, i: nat, k: nat)
    requires i < |Structure(root, cfg).dirs| && k < |Structure(root, cfg).dirs[i].files|
    ensures var ps := DirPositions(root, cfg.ignore);
      && i < |ps| && Survives(root, ps[i], cfg.ignore)
      && exists j :: 0 <= j < |NodeAt(root, ps[i]).files|
           && NodeAt(root, ps[i]).files[j].name !in cfg.ignore
           && Structure(root, cfg).dirs[i].files[k]
              == DirFileEntry(JoinPath(NamesAlong(root, ps[i]), cfg.host.Sep()), NodeAt(root, ps[i]).files[j], cfg)
  {
    var ps := DirPositions(root, cfg.ignore);
    DirsAreSurvivingDirectories(root, cfg);
    var files := NodeAt(root, ps[i]).files;
    var kept := KeptFiles(files, cfg.ignore);
    DirEntryShape(root, ps[i], cfg);
    assert kept[k] in kept;
    var j :| 0 <= j < |files| && files[j] == kept[k];
  }

  /** Every path in the manifest has forward slashes only, and every file
      entry's URLs are the repository addresses, "/raw/main/" and its path. */
  lemma ManifestWellFormed(root: Dir, cfg: Config)
    ensures var m := Structure(root, cfg);
      && (forall k :: 0 <= k < |m.files| ==> WellFormed(m.files[k], cfg.githubRepo, cfg.giteeRepo))
      && (forall i :: 0 <= i < |m.dirs| ==> '\\' !in m.dirs[i].path)
      && (forall i, k :: 0 <= i < |m.dirs| && 0 <= k < |m.dirs[i].files| ==>
            WellFormed(m.dirs[i].files[k], cfg.githubRepo, cfg.giteeRepo))
  {
    var m := Structure(root, cfg);
    forall k | 0 <= k < |m.files| ensures WellFormed(m.files[k], cfg.githubRepo, cfg.giteeRepo) {
      RootFilesSound(root, cfg, m.files[k]);
    }
    var ps := DirPositions(root, cfg.ignore);
    DirsAreSurvivingDirectories(root, cfg);
    forall i | 0 <= i < |m.dirs|
      ensures '\\' !in m.dirs[i].path
      ensures forall k :: 0 <= k < |m.dirs[i].files| ==> WellFormed(m.dirs[i].files[k], cfg.githubRepo, cfg.giteeRepo)
    {
      DirEntryShape(root, ps[i], cfg);
    }
  }

  /** With repository addresses free of backslashes, no path or URL in the
      manifest holds one. */
  lemma NoBackslashInManifest(root: Dir, cfg: Config)
    requires '\\' !in cfg.githubRepo && '\\' !in cfg.giteeRepo
    ensures var m := Structure(root, cfg);
      && (forall k :: 0 <= k < |m.files| ==>
            '\\' !in m.files[k].path && '\\' !in m.files[k].githubRawUrl && '\\' !in m.files[k].giteeRawUrl)
      && (forall i, k :: 0 <= i < |m.dirs| && 0 <= k < |m.dirs[i].files| ==>
            '\\' !in m.dirs[i].files[k].githubRawUrl && '\\' !in m.dirs[i].files[k].giteeRawUrl)
  {
    var m := Structure(root, cfg);
    ManifestWellFormed(root, cfg);
    forall k | 0 <= k < |m.files|
      ensures '\\' !in m.files[k].githubRawUrl && '\\' !in m.files[k].giteeRawUrl
    {
      NoBackslashInUrls(m.files[k], cfg.githubRepo, cfg.giteeRepo);
    }
    forall i, k | 0 <= i < |m.dirs| && 0 <= k < |m.dirs[i].files|
      ensures '\\' !in m.dirs[i].files[k].githubRawUrl && '\\' !in m.dirs[i].files[k].giteeRawUrl
    {
      NoBackslashInUrls(m.dirs[i].files[k], cfg.githubRepo, cfg.giteeRepo);
    }
  }
}
