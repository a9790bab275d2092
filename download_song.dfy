/**
 * Where the `download-song` handler puts a downloaded song. The response
 * bytes are opaque here: only the choice of paths, by format, is modelled.
 * `appDir` stands for `__dirname`, the directory of the running script.
 */
module DownloadSong {
  import Paths

  const ScratchDirName: string := "temp"
  const ZipExtension: string := ".zip"
  const SngExtension: string := ".sng"

  /** The file operations' targets for one download. */
  datatype Destination =
    | ExtractArchive(scratchDir: string, scratchZip: string, extractPath: string)
    | WriteSngFile(filePath: string)

  /**
   * The branch on `format`: exactly `"zip"` selects extraction; any other
   * value is handled as `.sng`.
   */
  function Plan(format: string, appDir: string, downloadPath: string, songName: string): (d: Destination)
    ensures d.ExtractArchive? <==> format == "zip"
    ensures d.ExtractArchive? ==>
      && d.scratchDir == Paths.Join(appDir, ScratchDirName)
      && |d.scratchZip| == |d.scratchDir| + 1 + |songName| + |ZipExtension|
      && d.scratchZip[..|d.scratchDir| + 1] == d.scratchDir + [Paths.Separator]
      && var name := songName + ZipExtension;
         |d.scratchZip| >= |name| && d.scratchZip[|d.scratchZip| - |name|..] == name
  {
    if format == "zip" then
      var scratchDir := Paths.Join(appDir, ScratchDirName);
      Paths.JoinShape(appDir, ScratchDirName);
      Paths.JoinShape(scratchDir, songName + ZipExtension);
      ExtractArchive(scratchDir, Paths.Join(scratchDir, songName + ZipExtension), Paths.Join(downloadPath, songName))
    else
      WriteSngFile(Paths.Join(downloadPath, songName + SngExtension))
  }

  /** The `path` of the `{ success: true, path }` reply. */
  function ReturnedPath(d: Destination): (p: string) {
    match d
    case ExtractArchive(_, _, extractPath) => extractPath
    case WriteSngFile(filePath) => filePath
  }

  /**
   * The reply is the download directory, one separator and the song name for
   * a zip, or the song name plus `.sng` otherwise (the name alone when the
   * directory is empty). With `Paths.Join` concatenating, this keeps every
   * song name inside the download directory.
   */
  lemma ReturnedPathIsInDownloadDir(format: string, appDir: string, downloadPath: string, songName: string)
    ensures var p := ReturnedPath(Plan(format, appDir, downloadPath, songName));
      var name := if format == "zip" then songName else songName + SngExtension;
      && |p| >= |name| && p[|p| - |name|..] == name
      && (downloadPath != "" ==>
            |p| == |downloadPath| + 1 + |name| && p[..|downloadPath| + 1] == downloadPath + [Paths.Separator])
      && (downloadPath == "" ==> p == name)
  {
    Paths.JoinShape(downloadPath, songName);
    Paths.JoinShape(downloadPath, songName + SngExtension);
  }

  /** The `.sng` path is the zip's extraction path with `.sng` appended. */
  lemma SngPathExtendsZipPath(other: string, appDir: string, downloadPath: string, songName: string)
    requires other != "zip"
    ensures ReturnedPath(Plan(other, appDir, downloadPath, songName))
         == ReturnedPath(Plan("zip", appDir, downloadPath, songName)) + SngExtension
  {
    Paths.JoinExtends(downloadPath, songName, SngExtension);
  }

  /**
   * Distinct song names never share a destination, nor a scratch zip, in
   * either format, since `Paths.Join` concatenates without normalising.
   */
  lemma DistinctSongsDoNotCollide(format: string, appDir: string, downloadPath: string, a: string, b: string)
    requires a != b
    ensures ReturnedPath(Plan(format, appDir, downloadPath, a)) != ReturnedPath(Plan(format, appDir, downloadPath, b))
    ensures format == "zip" ==>
      Plan(format, appDir, downloadPath, a).scratchZip != Plan(format, appDir, downloadPath, b).scratchZip
  {
    SuffixKeepsDistinct(a, b, ZipExtension);
    SuffixKeepsDistinct(a, b, SngExtension);
    if format == "zip" {
      Paths.JoinDistinct(downloadPath, a, b);
      Paths.JoinDistinct(Paths.Join(appDir, ScratchDirName), a + ZipExtension, b + ZipExtension);
    } else {
      Paths.JoinDistinct(downloadPath, a + SngExtension, b + SngExtension);
    }
  }

  lemma SuffixKeepsDistinct(a: string, b: string, ext: string)
    requires a != b
    ensures a + ext != b + ext
  {
    assert (a + ext)[..|a|] == a;
    assert (b + ext)[..|b|] == b;
  }
}
