# Clone Hero Song Companion: settings detection and download paths

A Dafny model of the two pieces of logic in the Electron main process
(`electron/main.ts`) of the Clone Hero song companion:

- **`get-clone-hero-settings`**: the handler looks for Clone Hero's
  `settings.ini` in three configuration directories: macOS
  (`$HOME/Library/Application Support/Clone Hero`), Windows
  (`$APPDATA/Clone Hero`) and Linux (`$HOME/.config/Clone Hero`), in that order.
  A missing or unreadable file, or a file without a `SongFolders` entry, moves
  the search on to the next directory. The first file that matches gives
  `{ settingsPath, songDirectories }`. If none matches, the result is `null`.
  The value comes from `content.match(/SongFolders\s*=\s*(.+)/)`, then
  `split(';')` and `filter(Boolean)`.
- **`download-song`**: the handler picks paths from the format. For `"zip"`,
  the scratch archive is `temp/<songName>.zip` under the script's directory and
  the archive is extracted to `<downloadPath>/<songName>`. Any other format is
  written to `<downloadPath>/<songName>.sng`.

Modules, one per concern:

- `Wrappers` (`wrappers.dfy`): `Option`, standing for a value or `null`.
- `Paths` (`paths.dfy`): `path.join` of a directory and a name.
- `SongFoldersPattern` (`song_folders_pattern.dfy`): the regular expression.
  It follows ECMA-262 section 22.2. `\s` is WhiteSpace (section 12.2, with
  every Zs space) or LineTerminator (section 12.3). `.` is any character except
  `\n`, `\r`, U+2028 and U+2029. The matcher is written as the backtracking
  engine runs it: leftmost start first, each greedy quantifier longest first,
  then giving back one character at a time. It is proved to return the match
  that comes first in that priority order (`Precedes`) among all ways the
  pattern matches (`IsMatch`), and `null` exactly when there is none.
- `SongList` (`song_list.dfy`): `split(';')` and `filter(Boolean)`.
- `CloneHeroSettings` (`clone_hero_settings.dfy`): the candidate directories and
  the search loop. The loop is an imperative method proved equal to a
  first-match function.
- `DownloadSong` (`download_song.dfy`): the path choice by format.

Inputs that come from the environment in the program are parameters here:

- `HOME` and `APPDATA` are `Option<string>`, read with the `|| ''` fallback.
- `__dirname` is `appDir`.
- The readable files form a map from path to text. A file that does not exist
  and a file whose read throws are both absent from the map; the handler treats
  them alike.

Consequences of the JavaScript semantics that the proofs make explicit:

- The key is case-sensitive and need not start a line. `OldSongFolders=x` and
  `# SongFolders=x` both match.
- `\s*` after `=` crosses line breaks (CRLF included) and drops leading
  blanks. The value is the first non-blank text after `=`, possibly lines
  later, up to the end of its line. `SongFolders=` with nothing after it on
  its line takes its value from a later line.
- A value that starts with a blank is that single blank, and then nothing
  but blanks follows the `=` up to the end of the file. `filter(Boolean)`
  keeps such a value as a directory.
- If nothing but line breaks follows the first key's `=`, that key does not
  match, as in the one-line file `SongFolders=` with a CRLF.
- Entries are not trimmed. Blanks around `;` stay inside the entries.

## Model

| member | source | states |
|---|---|---|
| `Paths.Join` | electron/main.ts:87 | `path.join` of a directory and a name; its contract is carried by `Paths.JoinShape` |
| `Paths.JoinShape` | electron/main.ts:87 | the joined path ends with the name and, for a non-empty directory, starts with the directory and one separator; an empty directory is skipped |
| `Paths.JoinDistinct` | electron/main.ts:87 | distinct names joined to the same directory give distinct paths |
| `SongFoldersPattern.SpaceRunEnd` | electron/main.ts:143 | greedy `\s*` stops at the end of the longest run of `\s` characters |
| `SongFoldersPattern.LineEnd` | electron/main.ts:143 | greedy `.+` stops at the first line terminator or at the end of the content |
| `SongFoldersPattern.BacktrackValue` | electron/main.ts:143 | backtracking `\s*(.+)` finds the capture with the latest start, then the longest one, among all captures reachable from the `=`; `None` exactly when there is none |
| `SongFoldersPattern.BacktrackEquals` | electron/main.ts:143 | backtracking `\s*=\s*(.+)` after the key returns the match first in priority order among those with that start; `None` exactly when none exists |
| `SongFoldersPattern.MatchFrom` | electron/main.ts:143 | scanning start positions from the left returns the leftmost match, first in priority order; `None` exactly when no match starts there or later |
| `SongFoldersPattern.FirstMatch` | electron/main.ts:143-144 | `match` returns `null` exactly when the pattern has no match; otherwise a match that precedes every other |
| `SongFoldersPattern.SongFoldersValue` | electron/main.ts:143-147 | capture group 1 is non-empty and has no line terminator; it is absent exactly when there is no match |
| `SongFoldersPattern.ValueRunsToLineEnd` | electron/main.ts:143 | the captured value runs to the end of its line |
| `SongFoldersPattern.BlankValueOnlyAtEnd` | electron/main.ts:143 | a value that starts with a blank is a single blank, and only blanks follow the `=` to the end of the content |
| `SongFoldersPattern.LeftmostKeyWins` | electron/main.ts:143 | after any text without `S`, `SongFolders=` and a one-line value starting with a non-blank give that value; later keys are ignored and the key need not start a line |
| `SongFoldersPattern.FirstKeyWithPlainValue` | electron/main.ts:143 | a match at the first `S`, with `=` right after the key, a value starting with a non-blank (after any blanks following `=`) and running to its line end, is the first match, and its value is returned |
| `SongFoldersPattern.BlanksBeforeValueAreSkipped` | electron/main.ts:143 | for content `SongFolders=`, any blanks and line breaks, then a one-line value starting with a non-blank, the value is that text: leading blanks and empty lines are dropped |
| `SongFoldersPattern.ValueOnNextWindowsLine` | electron/main.ts:143 | `SongFolders=`, a CRLF and a line starting with a non-blank give that line as the value |
| `SongFoldersPattern.OnlyLineBreaksAfterKeyNoMatch` | electron/main.ts:143-144 | when the first key is followed by `=` and nothing but line breaks, the pattern does not match and the value is absent |
| `SongFoldersPattern.EmptyLastLineNoMatch` | electron/main.ts:143-144 | the one-line file `SongFolders=` followed by a CRLF has no value |
| `SongFoldersPattern.NoCapitalSNoMatch` | electron/main.ts:143 | content without a capital `S` never matches, so the value is absent |
| `SongFoldersPattern.KeyIsCaseSensitive` | electron/main.ts:143 | `songfolders=x` does not match |
| `SongList.Split` | electron/main.ts:147 | `split(';')` gives at least one piece; no piece has a `;`; joining the pieces with `;` gives back the string |
| `SongList.SplitIsUnique` | electron/main.ts:147 | `split` is the only `;`-free cut of the string that joins back to it |
| `SongList.DropEmpty` | electron/main.ts:147 | `filter(Boolean)` leaves no empty string and keeps every non-empty one with its multiplicity |
| `SongList.DropEmptyDistributes` | electron/main.ts:147 | `filter` distributes over concatenation, so it keeps the order |
| `SongList.DropEmptyKeepsNonEmpty` | electron/main.ts:147 | `filter` changes nothing when no piece is empty |
| `SongList.SongDirectories` | electron/main.ts:147 | every directory is non-empty, has no `;`, and is made of characters of the value |
| `SongList.NoEmptyPieceIffWellSeparated` | electron/main.ts:147 | no piece is empty if and only if the string is non-empty, does not start or end with `;`, and has no `;;` |
| `SongList.SongDirectoriesRoundTrip` | electron/main.ts:147 | joining the directories with `;` gives the value back if and only if the value is empty or has no empty piece |
| `CloneHeroSettings.EnvOrEmpty` | electron/main.ts:129-133 | reads an environment variable with the empty-string fallback (an unset variable is `''`); used by `CandidateDirs`, whose candidates `CandidateOrder` and `UnsetEnvironmentGivesRelativeCandidates` characterise |
| `CloneHeroSettings.CandidateDirs` | electron/main.ts:127-134 | exactly three candidates; the macOS and Linux ones never coincide |
| `CloneHeroSettings.CandidateOrder` | electron/main.ts:127-134 | the candidates come in the order macOS, Windows, Linux: each ends with its platform's configuration directory and lies under `HOME` (macOS, Linux) or `APPDATA` (Windows) when that is non-empty |
| `CloneHeroSettings.UnsetEnvironmentGivesRelativeCandidates` | electron/main.ts:129-133 | with `HOME` and `APPDATA` unset, the candidates are relative paths |
| `CloneHeroSettings.Probe` | electron/main.ts:137-150 | one pass of the loop body; its contract is carried by `ProbeSucceedsIff` and `ProbeEntries` |
| `CloneHeroSettings.ProbeSucceedsIff` | electron/main.ts:137-150 | a candidate succeeds if and only if its `settings.ini` is readable and matches; the reported path is the directory, not its `settings.ini`, and the entries are those of that file's `SongFolders` value |
| `CloneHeroSettings.ProbeEntries` | electron/main.ts:143-149 | every reported entry is non-empty and holds neither `;` nor a line terminator |
| `CloneHeroSettings.FirstSome` | electron/main.ts:136-156 | the first-match search over the candidates' outcomes; its contract is carried by `FirstSomeIsFirst` |
| `CloneHeroSettings.FirstSomeIsFirst` | electron/main.ts:136-156 | the first-match search is `null` if and only if every candidate fails; otherwise it is the first candidate that succeeds, all earlier ones having failed |
| `CloneHeroSettings.GetCloneHeroSettings` | electron/main.ts:126-157 | the loop with early return returns exactly the first-match result over the three candidates |
| `CloneHeroSettings.SettingsSearchOutcome` | electron/main.ts:136-156 | `null` if and only if no candidate has a readable `settings.ini` that matches; otherwise `settingsPath` is a candidate directory whose file matches, `songDirectories` are the entries of that file's value, and no earlier candidate has a matching file |
| `DownloadSong.Plan` | electron/main.ts:80-97 | exactly the format `"zip"` selects extraction; the scratch zip is exactly `temp` under the script's directory, one separator and `<songName>.zip` |
| `DownloadSong.ReturnedPath` | electron/main.ts:94-99 | the `path` field of the reply; its contract is carried by `ReturnedPathIsInDownloadDir` and `SngPathExtendsZipPath` |
| `DownloadSong.ReturnedPathIsInDownloadDir` | electron/main.ts:87-99 | the returned path is exactly the download directory, one separator and the song name (zip) or the song name plus `.sng` (the name alone for an empty directory) |
| `DownloadSong.SngPathExtendsZipPath` | electron/main.ts:87-97 | the `.sng` path is the zip extraction path with `.sng` appended |
| `DownloadSong.DistinctSongsDoNotCollide` | electron/main.ts:82-97 | distinct song names get distinct destinations and distinct scratch zips |

## Left out

- Window creation, app lifecycle events, the directory dialog and `shell.openPath` (electron/main.ts:13-51, 107-123): user-interface plumbing with no logic of its own.
- The `search-songs` handler and the download `GET` (electron/main.ts:56-78): network I/O. The downloaded bytes are opaque.
- `fs.access`, `fs.readFile`, `fs.writeFile`, `fs.unlink`, `fsExtra.ensureDir` and `extract-zip` (electron/main.ts:83-92, 98, 139-141): file-system side effects and a foreign library. Reading is the file map; writing, extracting and the success-only removal of the scratch zip are not modelled. So a failed extraction leaves the scratch zip behind, and the model does not show it.
- Errors thrown by `download-song` and passed on to the caller (electron/main.ts:101-104): the model has no failure path for I/O.
- `path.join` normalisation: `.` and `..` segments, doubled or trailing separators, and the Windows `\` separator. `Paths.Join` joins with `/` and only skips an empty directory. An empty name is not skipped: for a non-empty `d`, `path.join(d, '')` is `d`, while `Paths.Join` gives `d/`, so for an empty song name the zip extraction path differs. `path.join('', '')` is `.`, while `Paths.Join("", "")` is the empty string.
- `DownloadSong.ReturnedPathIsInDownloadDir` holds of the program only for song names that are one plain path segment (non-empty, no `/` or `\`, not `.` or `..`): `path.join` resolves a name such as `../x` to a path outside the download directory.
- `DownloadSong.DistinctSongsDoNotCollide` holds of the program only for song names that are one plain path segment: `path.join` maps `x`, `./x` and `a/../x` to the same destination.
- Strings are sequences of Unicode scalar values, while JavaScript strings are UTF-16 code units. No character that the pattern looks at lies outside the Basic Multilingual Plane, so the captured value is the same. UTF-8 decoding by `readFile` is not modelled.
- electron/preload.ts only forwards IPC calls, and src/types/electron.d.ts only declares types. Neither has logic to model.
