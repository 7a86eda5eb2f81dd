/** create_file_entry: the record written for one file, with its two raw
    download URLs. */
module FileEntries {
  import opened Text
  import opened Wrappers

  /** A file entry of the manifest (the keys name, path, size,
      github_raw_url and gitee_raw_url). */
  datatype FileEntry = FileEntry(name: string, path: string, size: nat, githubRawUrl: string, giteeRawUrl: string)

  /** What both URLs put between the repository address and the path. */
  const RawMain: string := "/raw/main/"

  /** The raw-file URL of `path` in the repository at `repo`. */
  function RawUrl(repo: string, path: string): string {
    repo + RawMain + path
  }

  /** create_file_entry(name, rel_path, ...). `size` is what the filesystem
      reports for the file at `relPath` under the root: its byte size when it
      is a regular file, None otherwise. */
  function CreateFileEntry(name: string, relPath: string, size: Option<nat>, githubRepo: string, giteeRepo: string): (e: FileEntry)
    ensures e.name == name
    ensures e.path == Replace(relPath)
    ensures e.size == size.GetOr(0)
    ensures e.githubRawUrl == RawUrl(githubRepo, e.path) && e.giteeRawUrl == RawUrl(giteeRepo, e.path)
  {
    var path := Replace(relPath);
    FileEntry(name, path, size.GetOr(0), RawUrl(githubRepo, path), RawUrl(giteeRepo, path))
  }

  /** The entry is well formed: its path has forward slashes only and each URL
      is the repository address, "/raw/main/", then the path. */
  predicate WellFormed(e: FileEntry, githubRepo: string, giteeRepo: string) {
    && '\\' !in e.path
    && e.githubRawUrl == RawUrl(githubRepo, e.path)
    && e.giteeRawUrl == RawUrl(giteeRepo, e.path)
  }

  lemma CreateFileEntryWellFormed(name: string, relPath: string, size: Option<nat>, githubRepo: string, giteeRepo: string)
    ensures WellFormed(CreateFileEntry(name, relPath, size, githubRepo, giteeRepo), githubRepo, giteeRepo)
  {
  }

  /** No URL of a well-formed entry holds a backslash, when the repository
      addresses hold none. */
  lemma {:induction false} NoBackslashInUrls(e: FileEntry, githubRepo: string, giteeRepo: string)
    requires WellFormed(e, githubRepo, giteeRepo)
    requires '\\' !in githubRepo && '\\' !in giteeRepo
    ensures '\\' !in e.githubRawUrl && '\\' !in e.giteeRawUrl
  {
    NoBackslashInRawUrl(githubRepo, e.path);
    NoBackslashInRawUrl(giteeRepo, e.path);
  }

  lemma NoBackslashInRawUrl(repo: string, path: string)
    requires '\\' !in repo && '\\' !in path
    ensures '\\' !in RawUrl(repo, path)
  {
    var u := RawUrl(repo, path);
    forall i | 0 <= i < |u| ensures u[i] != '\\' {
      if i < |repo| {
        assert u[i] == repo[i];
      } else if i < |repo| + |RawMain| {
        assert u[i] == RawMain[i - |repo|];
      } else {
        assert u[i] == path[i - |repo| - |RawMain|];
      }
    }
  }

  /** The path is what follows the repository address and "/raw/main/" in
      the URL, so the URL determines the path. */
  lemma PathFromRawUrl(repo: string, path: string)
    ensures RawUrl(repo, path)[|repo| + |RawMain|..] == path
  {
    assert RawUrl(repo, path) == (repo + RawMain) + path;
  }

  lemma RawUrlInjective(repo: string, p1: string, p2: string)
    requires RawUrl(repo, p1) == RawUrl(repo, p2)
    ensures p1 == p2
  {
    PathFromRawUrl(repo, p1);
    PathFromRawUrl(repo, p2);
  }
}
