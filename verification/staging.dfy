/** Staging the downloaded archive under a name that depends only on the
    hour of the day, so that runs in different hours do not collide. */
module Staging {
  import opened Wrappers

  type Bytes = seq<bv8>

  /** A snapshot of the download directory: path to file content. */
  type Files = map<string, Bytes>

  const Prefix: string := "TO-Packed"
  const Extension: string := ".zip"

  function Digit(d: nat): (c: char)
    requires d < 10
    ensures '0' <= c <= '9' && c as int - '0' as int == d
  {
    ('0' as int + d) as char
  }

  /** The value of a decimal digit character. */
  function DigitValue(c: char): int
  {
    c as int - '0' as int
  }

  /** The hour of the day written with two digits, "00" to "23". */
  function TwoDigitHour(hour: nat): (s: string)
    requires hour < 24
    ensures |s| == 2 && '0' <= s[0] <= '2' && '0' <= s[1] <= '9'
    ensures DigitValue(s[0]) * 10 + DigitValue(s[1]) == hour
  {
    [Digit(hour / 10), Digit(hour % 10)]
  }

  /** The archive's staged file name: "TO-Packed", the zero-padded hour, ".zip". */
  function StagedName(hour: nat): (name: string)
    requires hour < 24
    ensures |name| == |Prefix| + 2 + |Extension|
    ensures name[..|Prefix|] == Prefix && name[|Prefix| + 2..] == Extension
    ensures '0' <= name[|Prefix|] <= '2' && '0' <= name[|Prefix| + 1] <= '9'
    ensures DigitValue(name[|Prefix|]) * 10 + DigitValue(name[|Prefix| + 1]) == hour
  {
    var hh := TwoDigitHour(hour);
    var name := Prefix + hh + Extension;
    assert name[..|Prefix|] == Prefix;
    assert name[|Prefix| + 2..] == Extension;
    name
  }

  /** Different hours give different names; the same hour always the same one. */
  lemma StagedNameInjective(h1: nat, h2: nat)
    requires h1 < 24 && h2 < 24
    ensures StagedName(h1) == StagedName(h2) <==> h1 == h2
  {
  }

  /** Joining a directory and a file name as POSIX path joining does. */
  function JoinPath(dir: string, name: string): (path: string)
    ensures |name| > 0 && name[0] != '/' ==>
      && |dir| + |name| <= |path| <= |dir| + 1 + |name|
      && path[..|dir|] == dir
      && path[|path| - |name|..] == name
      && (|path| == |dir| + |name| <==> dir == [] || dir[|dir| - 1] == '/')
      && (|path| > |dir| + |name| ==> path[|dir|] == '/')
  {
    if |name| > 0 && name[0] == '/' then name
    else if dir == [] || dir[|dir| - 1] == '/' then dir + name
    else dir + "/" + name
  }

  /** Joining never drops a separator: the name follows the directory
      directly when the directory is empty or already ends in '/', and
      after one '/' otherwise. */
  lemma JoinPathInsideDirectory(dir: string, name: string)
    requires |name| > 0 && name[0] != '/'
    ensures dir == [] || dir[|dir| - 1] == '/' ==> JoinPath(dir, name) == dir + name
    ensures dir != [] && dir[|dir| - 1] != '/' ==> JoinPath(dir, name) == dir + "/" + name
  {
  }

  /** The staged path for a given hour. */
  function StagedPath(downloadDir: string, hour: nat): string
    requires hour < 24
  {
    JoinPath(downloadDir, StagedName(hour))
  }

  /** What staging returns (the staged path, `None` when the move failed)
      and the directory afterwards. */
  datatype Staged = Staged(path: Option<string>, files: Files)

  /** Remove whatever occupies the staged path, then move the download
      there. The move fails when the download is not present, which
      includes the case where the download itself sat at the staged path
      and was just removed. */
  function StageDownload(files: Files, downloadDir: string, downloadPath: string, hour: nat): (s: Staged)
    requires hour < 24
    ensures var target := StagedPath(downloadDir, hour);
      && (s.path.Some? <==> downloadPath in files && downloadPath != target)
      && (s.path.Some? ==>
            && s.path.value == target
            && target in s.files && s.files[target] == files[downloadPath]
            && downloadPath !in s.files)
      && (s.path.None? ==> target !in s.files)
      && (forall p :: p != target && (s.path.Some? ==> p != downloadPath) ==>
            (p in s.files <==> p in files) && (p in files ==> s.files[p] == files[p]))
  {
    var target := StagedPath(downloadDir, hour);
    var cleared := if target in files then files - {target} else files;
    if downloadPath !in cleared then Staged(None, cleared)
    else Staged(Some(target), (cleared - {downloadPath})[target := cleared[downloadPath]])
  }

  /** A file already at the staged path is replaced by the download, not kept. */
  lemma StagingReplacesPreviousArchive(files: Files, downloadDir: string, downloadPath: string, hour: nat)
    requires hour < 24
    requires downloadPath in files && downloadPath != StagedPath(downloadDir, hour)
    ensures StageDownload(files, downloadDir, downloadPath, hour).files[StagedPath(downloadDir, hour)]
      == files[downloadPath]
    ensures |StageDownload(files, downloadDir, downloadPath, hour).files| ==
      if StagedPath(downloadDir, hour) in files then |files| - 1 else |files|
  {
  }
}
