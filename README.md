# digasfs in Dafny

digasfs is a read-only FUSE overlay for a DIGAS audio archive. In the archive,
an audio file `X.mp3` or `X.wav` comes with a `X.DBE` sidecar. The sidecar's
text carries the programme title between the markers `[TITLE]` and
`[FILENAME]`. The overlay lists each such file under its title, with the
same extension. It remembers which display path stands for which real file.
`access`, `getattr`, `statfs` and `open` look the request up in that memory;
a path it has not seen is used as the full path: joined onto the root as
`_full_path` gives it (so a request starting with "//" escapes the root). `readdir` does not
consult the memory: it lists the full path as it stands. So a directory
renamed by a listing answers `getattr` as the real directory, but `readdir`
on its display path gives only "." and ".." (unless that display path is
itself a real directory).

This project models the core of `DigasFilesystem`. It has five modules:

- **Text** (`text.dfy`): the Python string operations the title extraction
  uses. These are elements 0 and 1 of `str.split` and single-character
  `str.replace`. `Find`, a search for the first separator, is the model's
  own helper on which `split` is built.
- **Paths** (`paths.dfy`): POSIX `os.path.join` and `os.path.splitext`.
- **Naming** (`naming.dfy`): `_nice_name`, the display name built from the
  first 300 characters of the sidecar. `NiceName` returns a `Result`. Its
  `Failure` values stand for the `IOError` and `IndexError` paths:
  - `NotAudio`: the extension is not audio.
  - `SidecarUnreadable`: no sidecar can be opened.
  - `TitleMissing`: the sidecar's head has no `[TITLE]`.
- **Listing** (`listing.dfy`): what `_listdir` computes.
  - It sorts entries by modification time, newest first. The sort is stable.
  - It keeps the first 1000.
  - It walks the kept entries in order. The names shown are `Shown`. The
    display-path map is filled by `Registered`.
  - `Plan` records `_nice_name`'s verdict on each walked entry.
- **DigasFs** (`digasfs.dfy`): the class `DigasFilesystem`.
  - It has the `root` and the mutable map `fancyFilenames` (display path to
    real path).
  - `ListDir`, `ListEntry` and `ReadDir` update the map in place. Their
    contracts tie the result and the new map to the `Listing` functions.
  - `FullPath` is `_full_path`.
  - `Access`, `GetAttr`, `StatFs` and `Open` resolve the full path through
    the map and pass it to the storage.
  - The ignored operations answer 0.

The operating system appears only as the abstract `Storage` value. It holds:

- which paths are directories, and their entries with modification times;
- the latin-1 text of every file that can be opened;
- what `lstat` and `statvfs` report;
- which (path, mode) pairs `access` grants;
- which descriptor `open` gives for a (path, flags) pair.

Two consequences of the code are worth naming:

- **Title collisions.** When two kept files get the same display name, the
  map ends up pointing at the one walked last (`RegisteredLastWins`). The
  walk goes newest first, so that is the older file (`HomonymOldestWins`).
- **The 1000 cap.** The comment at main.py:26 speaks of "the most recent 1000
  files". The cap limits walked entries, not returned names. main.py:31 and
  main.py:34 are two separate `if`s, so a directory whose name has an audio
  extension and a sidecar is shown under its own name and under a display
  name. A listing can therefore return up to 2000 names (`ShownLength`,
  `AudioNamedDirectoryShownTwice`).

## Model

| member | source | states |
|---|---|---|
| Paths.RFind | main.py:34 | Definition of `rfind` for one character, used by `splitext`; its properties are stated by `Paths.RFindSpec`. |
| Paths.SplitExt | main.py:34 | Definition of `os.path.splitext` (also called at main.py:51); its properties are stated by `Paths.SplitExtSpec` and `Paths.SplitExtOfName`. |
| Text.FindFrom | main.py:56 | Definition of the search for a separator from a position on, on which `split` is built; stated by `Text.FindFromSpec`. |
| Text.Find | main.py:56 | Definition of the search for the first separator; stated by `Text.FindSpec`. |
| Text.BeforeFirst | main.py:56 | Definition of `split(sep)[0]`; stated by `Text.BeforeFirstSpec`, `Text.CutTwice` and `Text.CutTwiceFree`. |
| Text.AfterFirst | main.py:56 | Definition of the text after the first `sep`, from which `split(sep)[1]` is cut; stated by `Text.AfterFirstSpec` and `Text.AfterFirstAt`. |
| Text.ReplaceChar | main.py:58 | Definition of single-character `replace`; stated by `Text.ReplaceCharSpec`. |
| Naming.SidecarPath | main.py:54 | Definition of the sidecar path `join(folder, name + ".DBE")`; stated by `Naming.SidecarOfAudioFile`. |
| Naming.ExtractTitle | main.py:56 | Definition of `split("[TITLE]")[1].split("[FILENAME]")[0]`, with `None` for the IndexError; stated by `Naming.ExtractTitleSpec` and `Naming.TitleLocated`. |
| Naming.DisplayName | main.py:58 | Definition of `title.replace("/", "-").replace("\\", "_") + extension`; stated by `Naming.DisplayNameSpec`. |
| Listing.Recent | main.py:27 | Definition of the sorted, capped `original_filenames`; stated by `Listing.RecentKeepsNewest`. |
| Listing.Overflow | main.py:27 | Definition of the entries the `[0:1000]` cut drops; stated by `Listing.RecentKeepsNewest`. |
| Listing.StepNames | main.py:31-39 | Definition of the names one loop pass appends; stated by `Listing.StepNamesShows`. |
| Listing.Shown | main.py:28-45 | Definition of `nice_filenames` after the loop; stated by `Listing.ShownMembership`, `Listing.ShownAppend`, `Listing.HiddenEntry` and `Listing.ShownLength`. |
| Listing.Registered | main.py:38 | Definition of `fancy_filenames` after the loop; stated by `Listing.RegisteredKeeps` and `Listing.RegisteredLastWins`. |
| DigasFs.DigasFilesystem.FullPath | main.py:19-23 | Definition of `_full_path`; stated by `DigasFs.DigasFilesystem.FullPathStripsOneSlash` and `DigasFs.DigasFilesystem.ChildRequestFullPath`. |
| DigasFs.DigasFilesystem.Resolve | main.py:76-80 | Definition of the lookup with KeyError fallback that `access`, `getattr`, `statfs` and `open` share (also main.py:66-71, 95-99, 110-114); stated by `DigasFs.DigasFilesystem.DisplayPathReachesRealFile` and `DigasFs.DigasFilesystem.UnregisteredPathIsLiteral`. |
| DigasFs.DigasFilesystem.Access | main.py:64-72 | Definition of `access`: EACCES unless the storage grants the mode on the resolved path; stated by the two resolution lemmas. |
| DigasFs.DigasFilesystem.GetAttr | main.py:74-82 | Definition of `getattr`: `lstat` of the resolved path; stated by the two resolution lemmas. |
| DigasFs.DigasFilesystem.StatFs | main.py:93-102 | Definition of `statfs`: `statvfs` of the resolved path; stated by the two resolution lemmas. |
| DigasFs.DigasFilesystem.Open | main.py:108-114 | Definition of `open`: `os.open` of the resolved path; stated by the two resolution lemmas. |
| Paths.Join | main.py:22 | An absolute second part replaces the first. Otherwise the second part is appended to the first, with a "/" between them unless the first is empty or already ends in one. |
| Paths.JoinRelative | main.py:22 | A relative name is appended to the directory prefix: the directory, plus "/" unless it is empty or already ends in "/". |
| Paths.JoinInjective | main.py:38 | Two relative names joined onto the same directory give the same path only if the names are equal. Distinct display names therefore get distinct map keys. |
| Paths.RFindSpec | main.py:34 | `rfind` returns an index holding the character with none after it, or -1 when the character does not occur. |
| Paths.SplitExtSpec | main.py:34 | `splitext` gives a root and an extension that concatenate to the path. The extension is empty, or a dot followed by no dot and no "/". |
| Paths.SplitExtOfName | main.py:51 | A base name that has no "/" and is not all dots, followed by an extension, splits back into that base and that extension. |
| Text.FindFromSpec | main.py:56 | A search from `from` finds an occurrence at or after `from`, with none between `from` and it. A search that finds nothing leaves no occurrence at or after `from`. |
| Text.FindSpec | main.py:56 | `Find` (the model's search on which `split` is built) returns the leftmost occurrence. It returns nothing exactly when the pattern does not occur. |
| Text.BeforeFirstSpec | main.py:56 | `split(sep)[0]` is a prefix of the text with no `sep` inside it. It is the whole text, or it stops where the first `sep` begins. It is the whole text when `sep` does not occur. |
| Text.AfterFirstSpec | main.py:56 | `AfterFirst` (the text after the first `sep`, which `split(sep)[1]` then cuts at the next `sep`) exists exactly when `sep` occurs, and is everything after that first occurrence. |
| Text.AfterFirstAt | main.py:56 | Given the first occurrence of `sep` at `k`, `AfterFirst` (from which `split(sep)[1]` is cut at the next `sep`) is the text from just past that occurrence to the end. |
| Text.CutTwice | main.py:56 | Cutting at the first `a` and then at the first `b` leaves a prefix of the text. It ends at the end of the text or where an `a` or a `b` begins. |
| Text.CutTwiceFree | main.py:56 | Cutting at the first `a` and then at the first `b` leaves text that contains neither `a` nor `b`. |
| Text.CutAfterFirst | main.py:56 | After the first `a` at `k`, the cut text is the slice of the input from just past that `a` to the end of the input or to the next `a` or `b`. |
| Text.ReplaceCharSpec | main.py:58 | `replace` of one character keeps the length. Every occurrence of the target becomes the replacement, and nothing else changes. |
| Naming.Head | main.py:55 | `read(300)` returns a prefix of the sidecar text, of at most 300 characters. It is the whole text or exactly 300 characters. |
| Naming.HeadIgnoresTail | main.py:55 | Nothing after the first 300 characters affects what is read. |
| Naming.ExtractTitleSpec | main.py:56 | A title exists exactly when `[TITLE]` occurs in the head (otherwise IndexError). The title contains no `[TITLE]` and no `[FILENAME]`. |
| Naming.TitleLocated | main.py:56 | The title starts right after the first `[TITLE]`. It ends at the end of the head, at the next `[TITLE]`, or at a `[FILENAME]`, whichever comes first. A missing `[FILENAME]` is not an error. |
| Naming.DisplayNameSpec | main.py:58 | The display name is the title, with every "/" made "-" and every "\" made "_", followed by the extension. It has a "/" or a "\" only where the extension does. |
| Naming.NiceName | main.py:47-58 | A display name is produced only for a file whose extension is one of the four audio extensions. |
| Naming.NiceNameFailsExactly | main.py:51-56 | `_nice_name` fails in exactly three ways. The extension is not ".wav", ".WAV", ".mp3" or ".MP3". Or the sidecar cannot be opened. Or its first 300 characters hold no `[TITLE]`. |
| Naming.NiceNameShape | main.py:51-58 | On success, the display name has no "/" and no "\". It is the made-safe title followed by the real file's audio extension. |
| Naming.AudioExtIsPlain | main.py:35 | Each of the four audio extensions is four characters long and has no "/" and no "\". |
| Naming.NiceNameReadsOnlySidecarHead | main.py:54-56 | The result depends only on whether the one derived sidecar can be opened, and on its first 300 characters. |
| Naming.SidecarOfAudioFile | main.py:51-54 | The sidecar of `base + ext` is `base + ".DBE"` in the same folder. |
| Naming.DotsOnlyIsNotAudio | main.py:51-53 | A name such as ".mp3" or "..wav" has no extension, so it is rejected as not audio. |
| Listing.Insert | main.py:27 | Inserting keeps every entry and adds the new one, as a multiset. |
| Listing.SortNewestFirst | main.py:27 | The sort is a permutation of the directory's entries. |
| Listing.InsertNewestFirst | main.py:27 | Inserting into a newest-first sequence keeps it newest first. |
| Listing.SortIsNewestFirst | main.py:27 | `sorted(..., key=getmtime, reverse=True)` orders entries by descending modification time. |
| Listing.InsertStable | main.py:27 | An insertion puts the entry before every entry with the same modification time, so ties keep their order when the sort inserts from the back. |
| Listing.SortIsStable | main.py:27 | Entries with equal modification times keep their `os.listdir` order. |
| Listing.WithMtimeAppend | main.py:27 | Picking the entries with one modification time commutes with concatenation. |
| Listing.SplitNewestFirst | main.py:27 | Cutting a newest-first sequence gives two newest-first parts. No entry of the second part is newer than an entry of the first. |
| Listing.RecentKeepsNewest | main.py:26-27 | The `[0:1000]` cut keeps `min(n, 1000)` entries, newest first. The kept and the dropped entries together are the directory's entries. No dropped entry is newer than a kept one. Ties keep their listing order. |
| Listing.Plan | main.py:30-37 | One verdict per walked entry, in walk order, each about that entry. |
| Listing.PlanAt | main.py:37 | The verdict on entry `i` is `_nice_name` of that entry's name in the listed folder. |
| Listing.PlanNamesRelative | main.py:37-38 | No display name begins with "/", so joining it onto the folder lands inside the folder. |
| Listing.PlanAppend | main.py:30 | Walking a concatenation gives the verdicts of the first part, then those of the second. |
| Listing.ShownSnoc | main.py:30-39 | Walking one more entry appends exactly the names that entry adds. |
| Listing.RegisteredSnoc | main.py:38 | Walking one more entry sets at most its own display path, to its real path. |
| Listing.StepNamesShows | main.py:31-39 | One entry adds a name exactly when it is a directory of that name or an audio file renamed to it. |
| Listing.ShownAppend | main.py:28-45 | The names follow the walk. Walking `s1 + s2` shows the names of `s1`, then those of `s2`. |
| Listing.ShownMembership | main.py:28-45 | A name is returned exactly when some walked entry is a directory of that name, or an audio file whose display name it is. |
| Listing.HiddenEntry | main.py:31-43 | A non-directory entry with no display name contributes nothing. Its real name is not shown in its place. |
| Listing.ShownLength | main.py:26-39 | A listing returns at most two names per walked entry. It returns at most one per entry when no directory is renamed. |
| Listing.AudioNamedDirectoryShownTwice | main.py:31-39 | A directory named like an audio file, with a sidecar carrying `[TITLE]`, takes both branches. The names are exactly its own name, then its display name. The map gains exactly that display path, pointing at the directory. |
| Listing.RegisteredKeeps | main.py:38 | A listing never removes a display path. A key the walk does not produce keeps its old value, or stays absent. |
| Listing.RegisteredLastWins | main.py:38 | After the walk, each display path maps to the real file of the last entry that produced that name. |
| Listing.HomonymOldestWins | main.py:27-38 | Among kept files sharing a display name, the one the map keeps has the oldest modification time. |
| DigasFs.DigasFilesystem.constructor | main.py:11-13 | A new overlay has the given root and an empty display-path map. |
| DigasFs.DigasFilesystem.ListDir | main.py:25-45 | The returned names are `Shown` of the plan over the newest 1000 entries. The new map is the old map with that plan's registrations applied, in walk order. |
| DigasFs.DigasFilesystem.ListEntry | main.py:31-43 | One loop pass. A directory adds its name. An audio file with a title is registered and adds its display name. Anything else adds nothing and leaves the map unchanged. |
| DigasFs.DigasFilesystem.ReadDir | main.py:84-91 | The result is "." and ".." followed by the listing of the full path if it is a directory. If it is not, the result is just "." and ".." and the map is unchanged. |
| DigasFs.DigasFilesystem.Unsupported | main.py:127-173 | Each ignored operation, `readlink` included, answers 0. |
| DigasFs.DigasFilesystem.FullPathStripsOneSlash | main.py:19-23 | `_full_path` strips exactly one leading "/". A path starting with "//" keeps a leading "/", and `os.path.join` then discards the root. |
| DigasFs.DigasFilesystem.ChildRequestFullPath | main.py:19-23 | The request for a name listed under a directory request has the full path `Join(full path of the directory, name)`. That is the key the listing registered. |
| DigasFs.DigasFilesystem.DisplayPathReachesRealFile | main.py:64-114 | After a listing registered display name `n`, and no later entry took `n`, the request for `n` reaches the real file. `access`, `getattr`, `statfs` and `open` answer exactly as for that file. |
| DigasFs.DigasFilesystem.UnregisteredPathIsLiteral | main.py:64-114 | For a path no listing registered, `access`, `getattr`, `statfs` and `open` fall back to the full path itself (the KeyError branch). |

## Left out

- Mounting and the command line (`main`, `FUSE(...)`, main.py:175-179): they only start the process.
- `read` and `release`: they act on the file descriptor alone, with `lseek`, `read` and `close`, and look up no path. There is nothing to resolve, so they are not modelled.
- Operating-system calls are abstracted as the `Storage` value:
  - `os.listdir`, `isdir`, `getmtime`, `os.access`, `lstat`, `statvfs`, `os.open` and `codecs.open`;
  - descriptor numbers are whatever `Storage.descriptors` says.
- Errors raised while listing are not modelled, such as `getmtime` on a dangling link. The model assumes the listing itself succeeds.
- `getmtime` returns a float. It is modelled as an integer, because only its order matters.
- Python 2 byte strings versus unicode, and the latin-1 decoding, are not modelled. Text is a sequence of characters, and one byte of latin-1 is one character.
- The `print` diagnostics in the two `except` branches: output only.
- Concurrency of FUSE requests: the source takes no locks, and the model handles one request at a time.
- Arguments the source ignores are dropped: the optional `fh` of `getattr` and `truncate`, `fi` of `create`, `times` of `utimens`, and the `fh` of `readdir`.
- `getattr` and `statfs` build a dict from the `lstat` / `statvfs` result. Here they return the `Attr` / `FsStat` record of those fields.
- `DigasFs.DigasFilesystem.ListEntry` does not call `NiceName` for a non-audio file. It records `Failure(NotAudio)` for it, which is `NiceName`'s verdict on such a file. The source likewise skips `_nice_name` there.
