/**
 * The `get-clone-hero-settings` handler: look for Clone Hero's
 * `settings.ini` in the macOS, Windows and Linux configuration directories,
 * in that order, and report the first one whose `SongFolders` key matches.
 */
module CloneHeroSettings {
  import opened Wrappers
  import Paths
  import SongFoldersPattern
  import SongList

  /**
   * The files the handler can read, by path, with their UTF-8 text. A path
   * that is absent is a file that does not exist or whose read throws; the
   * handler treats both alike, moving on to the next candidate.
   */
  type FileSystem = map<string, string>

  /** The handler's non-null result. */
  datatype Settings = Settings(settingsPath: string, songDirectories: seq<string>)

  const SettingsFileName: string := "settings.ini"

  /** `process.env.X || ''`: an unset variable reads as the empty string. */
  function EnvOrEmpty(v: Option<string>): (s: string)
  {
    if v.Some? then v.value else ""
  }

  const MacOSConfigDir: string := "Library/Application Support/Clone Hero"
  const WindowsConfigDir: string := "Clone Hero"
  const LinuxConfigDir: string := ".config/Clone Hero"

  /**
   * The three configuration directories searched, in order: macOS and Linux
   * under HOME, Windows under APPDATA. The macOS and Linux ones never coincide.
   */
  function CandidateDirs(home: Option<string>, appData: Option<string>): (dirs: seq<string>)
    ensures |dirs| == 3
    ensures dirs[0] != dirs[2]
  {
    var h, a := EnvOrEmpty(home), EnvOrEmpty(appData);
    Paths.JoinDistinct(h, MacOSConfigDir, LinuxConfigDir);
    [ Paths.Join(h, MacOSConfigDir), Paths.Join(a, WindowsConfigDir), Paths.Join(h, LinuxConfigDir) ]
  }

  /**
   * The candidates come in the order macOS, Windows, Linux: each ends with
   * its platform's configuration directory, and lies under HOME (macOS,
   * Linux) or APPDATA (Windows) when that variable is set and non-empty.
   */
  lemma CandidateOrder(home: Option<string>, appData: Option<string>)
    ensures var dirs, h, a := CandidateDirs(home, appData), EnvOrEmpty(home), EnvOrEmpty(appData);
      && Paths.UnderDir(dirs[0], h, MacOSConfigDir)
      && Paths.UnderDir(dirs[1], a, WindowsConfigDir)
      && Paths.UnderDir(dirs[2], h, LinuxConfigDir)
  {
    var h, a := EnvOrEmpty(home), EnvOrEmpty(appData);
    Paths.JoinIsUnderDir(h, MacOSConfigDir);
    Paths.JoinIsUnderDir(a, WindowsConfigDir);
    Paths.JoinIsUnderDir(h, LinuxConfigDir);
  }

  /**
   * What one candidate directory yields: its `settings.ini` is read and, when
   * the `SongFolders` pattern matches, the directory and the value's entries.
   */
  function Probe(dir: string, fs: FileSystem): (r: Option<Settings>)
  {
    var settingsFile := Paths.Join(dir, SettingsFileName);
    if settingsFile in fs then
      var value := SongFoldersPattern.SongFoldersValue(fs[settingsFile]);
      if value.Some? then Some(Settings(dir, SongList.SongDirectories(value.value))) else None
    else None
  }

  /** The candidate's `settings.ini` is readable and the `SongFolders` pattern matches it. */
  ghost predicate HasMatchingSettings(dir: string, fs: FileSystem) {
    var settingsFile := Paths.Join(dir, SettingsFileName);
    settingsFile in fs && exists m :: SongFoldersPattern.IsMatch(fs[settingsFile], m)
  }

  /** The entries listed by the `SongFolders` value of a candidate's matching `settings.ini`. */
  ghost function FileEntries(dir: string, fs: FileSystem): (entries: seq<string>)
    requires HasMatchingSettings(dir, fs)
  {
    var content := fs[Paths.Join(dir, SettingsFileName)];
    SongList.SongDirectories(SongFoldersPattern.SongFoldersValue(content).value)
  }

  /**
   * A candidate succeeds exactly when its `settings.ini` is readable and
   * matches the pattern. The reported `settingsPath` is the directory itself,
   * not the path of its `settings.ini`.
   */
  lemma ProbeSucceedsIff(dir: string, fs: FileSystem)
    ensures Probe(dir, fs).Some? <==> HasMatchingSettings(dir, fs)
    ensures Probe(dir, fs).Some? ==>
      && Probe(dir, fs).value.settingsPath == dir
      && Probe(dir, fs).value.settingsPath != Paths.Join(dir, SettingsFileName)
    ensures Probe(dir, fs).Some? ==> Probe(dir, fs).value.songDirectories == FileEntries(dir, fs)
  {
    Paths.JoinIsNotDir(dir, SettingsFileName);
  }

  /** Every reported entry is non-empty and holds neither `;` nor a line terminator. */
  lemma ProbeEntries(dir: string, fs: FileSystem)
    ensures Probe(dir, fs).Some? ==> forall i :: 0 <= i < |Probe(dir, fs).value.songDirectories| ==>
      var entry := Probe(dir, fs).value.songDirectories[i];
      && entry != ""
      && SongList.FolderSeparator !in entry
      && forall k :: 0 <= k < |entry| ==> !SongFoldersPattern.IsLineTerminator(entry[k])
  {
    var settingsFile := Paths.Join(dir, SettingsFileName);
    if settingsFile in fs {
      var value := SongFoldersPattern.SongFoldersValue(fs[settingsFile]);
      if value.Some? {
        var dirs := SongList.SongDirectories(value.value);
        forall i, k | 0 <= i < |dirs| && 0 <= k < |dirs[i]|
          ensures !SongFoldersPattern.IsLineTerminator(dirs[i][k])
        {
          var j :| 0 <= j < |value.value| && value.value[j] == dirs[i][k];
        }
      }
    }
  }

  /** The first present value of a sequence of outcomes: a first-match search. */
  function FirstSome<T>(outcomes: seq<Option<T>>): (r: Option<T>)
    decreases |outcomes|
  {
    if outcomes == [] then None
    else if outcomes[0].Some? then outcomes[0]
    else FirstSome(outcomes[1..])
  }

  /**
   * `FirstSome` is `None` exactly when every outcome is, and otherwise the
   * outcome at the first index that has one.
   */
  lemma {:induction false} FirstSomeIsFirst<T>(outcomes: seq<Option<T>>)
    ensures FirstSome(outcomes).None? <==> forall k :: 0 <= k < |outcomes| ==> outcomes[k].None?
    ensures FirstSome(outcomes).Some? ==> exists k ::
      && 0 <= k < |outcomes|
      && FirstSome(outcomes) == outcomes[k]
      && forall j :: 0 <= j < k ==> outcomes[j].None?
    decreases |outcomes|
  {
    if outcomes != [] {
      var rest := outcomes[1..];
      FirstSomeIsFirst(rest);
      if outcomes[0].None? {
        assert forall k :: 1 <= k < |outcomes| ==> outcomes[k] == rest[k - 1];
        if FirstSome(outcomes).Some? {
          var k :| 0 <= k < |rest| && FirstSome(rest) == rest[k]
            && forall j :: 0 <= j < k ==> rest[j].None?;
          assert FirstSome(outcomes) == outcomes[k + 1];
        }
      }
    }
  }

  /** The outcome at an index preceded only by absent ones is the first present one. */
  lemma {:induction false} FirstSomeAt<T>(outcomes: seq<Option<T>>, k: nat)
    requires k < |outcomes| && outcomes[k].Some?
    requires forall j :: 0 <= j < k ==> outcomes[j].None?
    ensures FirstSome(outcomes) == outcomes[k]
    decreases k
  {
    if k > 0 {
      assert forall j :: 0 <= j < k - 1 ==> outcomes[1..][j] == outcomes[j + 1];
      FirstSomeAt(outcomes[1..], k - 1);
    }
  }

  /** What each candidate yields, in candidate order. */
  function Outcomes(dirs: seq<string>, fs: FileSystem): (r: seq<Option<Settings>>)
  {
    seq(|dirs|, k requires 0 <= k < |dirs| => Probe(dirs[k], fs))
  }

  /**
   * The handler. Tries each candidate in order; a missing or unreadable
   * `settings.ini`, or one without a matching `SongFolders` key, moves on to
   * the next; the first match is returned; `None` stands for `null`.
   */
  method GetCloneHeroSettings(home: Option<string>, appData: Option<string>, fs: FileSystem)
    returns (r: Option<Settings>)
    ensures r == FirstSome(Outcomes(CandidateDirs(home, appData), fs))
  {
    var possiblePaths := CandidateDirs(home, appData);
    ghost var outcomes := Outcomes(possiblePaths, fs);
    for k := 0 to |possiblePaths|
      invariant forall j :: 0 <= j < k ==> outcomes[j].None?
    {
      var path := possiblePaths[k];
      var settingsFile := Paths.Join(path, SettingsFileName);
      var fileExists := settingsFile in fs;
      if fileExists {
        var content := fs[settingsFile];
        var songPathMatch := SongFoldersPattern.SongFoldersValue(content);
        if songPathMatch.Some? {
          r := Some(Settings(path, SongList.SongDirectories(songPathMatch.value)));
          FirstSomeAt(outcomes, k);
          return;
        }
      }
    }
    FirstSomeIsFirst(outcomes);
    return None;
  }

  /** With HOME and APPDATA both unset, the candidates are relative to the working directory. */
  lemma UnsetEnvironmentGivesRelativeCandidates()
    ensures CandidateDirs(None, None) == [MacOSConfigDir, WindowsConfigDir, LinuxConfigDir]
  {
  }

  /**
   * On the three candidates: `null` exactly when no candidate has a readable
   * `settings.ini` matching the pattern; otherwise the reported
   * `settingsPath` is a candidate directory whose file matches, and no
   * candidate before it has one.
   */
  lemma SettingsSearchOutcome(home: Option<string>, appData: Option<string>, fs: FileSystem)
    ensures var dirs := CandidateDirs(home, appData);
      FirstSome(Outcomes(dirs, fs)).None? <==> forall k :: 0 <= k < 3 ==> !HasMatchingSettings(dirs[k], fs)
    ensures var dirs := CandidateDirs(home, appData);
      FirstSome(Outcomes(dirs, fs)).Some? ==> exists k ::
        && 0 <= k < 3
        && FirstSome(Outcomes(dirs, fs)).value.settingsPath == dirs[k]
        && HasMatchingSettings(dirs[k], fs)
        && FirstSome(Outcomes(dirs, fs)).value.songDirectories == FileEntries(dirs[k], fs)
        && forall j :: 0 <= j < k ==> !HasMatchingSettings(dirs[j], fs)
  {
    var dirs := CandidateDirs(home, appData);
    var outcomes := Outcomes(dirs, fs);
    FirstSomeIsFirst(outcomes);
    forall k | 0 <= k < 3 ensures outcomes[k].None? <==> !HasMatchingSettings(dirs[k], fs) {
      ProbeSucceedsIff(dirs[k], fs);
    }
    if FirstSome(outcomes).Some? {
      var k :| 0 <= k < 3 && FirstSome(outcomes) == outcomes[k] && forall j :: 0 <= j < k ==> outcomes[j].None?;
      ProbeSucceedsIff(dirs[k], fs);
    }
  }
}
