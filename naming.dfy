/**
 * `DigasFilesystem._nice_name`: the display name of an audio file, built from
 * the title its DBE sidecar carries between the `[TITLE]` and `[FILENAME]` markers.
 */
module Naming {
  import opened Wrappers
  import opened Text
  import opened Paths

  const START_TAG := "[TITLE]"
  const END_TAG := "[FILENAME]"
  const SIDECAR_EXT := ".DBE"
  /** `f.read(300)`: how many characters of the sidecar are looked at. */
  const READ_LIMIT := 300
  /** The extensions taken for audio, compared exactly (no case folding). */
  const AUDIO_EXTENSIONS := {".wav", ".WAV", ".mp3", ".MP3"}

  predicate IsAudioExt(ext: string) {
    ext in AUDIO_EXTENSIONS
  }

  /**
   * Why no display name could be built. `NotAudio` and `SidecarUnreadable`
   * are the IOError the source raises or meets, `TitleMissing` its IndexError.
   */
  datatype NameError = NotAudio | SidecarUnreadable | TitleMissing

  /** The sidecar of `fileName`: same base name in the same folder, extension ".DBE". */
  function SidecarPath(fileName: string, folder: Path): Path {
    Join(folder, SplitExt(fileName).0 + SIDECAR_EXT)
  }

  /** What `f.read(300)` returns from a latin-1 text: at most its first 300 characters. */
  function Head(content: string): (r: string)
    ensures r <= content
    ensures |r| == READ_LIMIT || r == content
    ensures |r| <= READ_LIMIT
  {
    if |content| <= READ_LIMIT then content else content[..READ_LIMIT]
  }

  /** Text beyond the first 300 characters is never read. */
  lemma HeadIgnoresTail(content: string, extra: string)
    requires |content| >= READ_LIMIT
    ensures Head(content + extra) == Head(content)
  {
    assert (content + extra)[..READ_LIMIT] == content[..READ_LIMIT];
  }

  /**
   * `head.split("[TITLE]")[1].split("[FILENAME]")[0]`, with `None` for the
   * IndexError raised when `[TITLE]` does not occur.
   */
  function ExtractTitle(head: string): Option<string> {
    match AfterFirst(head, START_TAG)
    case None => None
    case Some(rest) => Some(BeforeFirst(BeforeFirst(rest, START_TAG), END_TAG))
  }

  /** There is a title exactly when `[TITLE]` occurs; a title holds neither marker. */
  lemma ExtractTitleSpec(head: string)
    ensures ExtractTitle(head).None? <==> !Contains(head, START_TAG)
    ensures ExtractTitle(head).Some? ==>
      !Contains(ExtractTitle(head).value, START_TAG) && !Contains(ExtractTitle(head).value, END_TAG)
  {
    AfterFirstSpec(head, START_TAG);
    if AfterFirst(head, START_TAG).Some? {
      CutTwiceFree(AfterFirst(head, START_TAG).value, START_TAG, END_TAG);
    }
  }

  /**
   * Where the title sits: right after the first `[TITLE]`, and it stops at the
   * end of the text read or where the next `[TITLE]` or a `[FILENAME]` begins.
   */
  lemma TitleLocated(head: string, k: nat)
    requires FirstAt(head, START_TAG, k)
    ensures ExtractTitle(head).Some?
    ensures var t := ExtractTitle(head).value; var e := k + |START_TAG| + |t|;
      && e <= |head|
      && t == head[k + |START_TAG|..e]
      && (e == |head| || OccursAt(head, START_TAG, e) || OccursAt(head, END_TAG, e))
  {
    CutAfterFirst(head, START_TAG, END_TAG, k);
  }

  /** `c` as it appears in a display name: "/" becomes "-", "\" becomes "_". */
  function SafeChar(c: char): char {
    if c == '/' then '-' else if c == '\\' then '_' else c
  }

  /**
   * `title.replace("/", "-").replace("\\", "_") + extension`: the title made
   * safe character by character, then the real file's extension unchanged.
   */
  function DisplayName(title: string, ext: string): string {
    ReplaceChar(ReplaceChar(title, '/', '-'), '\\', '_') + ext
  }

  /**
   * The display name is the title's characters made safe one by one, then the
   * extension: it holds a "/" or a "\" only where the extension does.
   */
  lemma DisplayNameSpec(title: string, ext: string)
    ensures var r := DisplayName(title, ext);
      && |r| == |title| + |ext|
      && r[|title|..] == ext
      && (forall i | 0 <= i < |title| :: r[i] == SafeChar(title[i]))
      && ('/' in r <==> '/' in ext)
      && ('\\' in r <==> '\\' in ext)
  {
    var once := ReplaceChar(title, '/', '-');
    ReplaceCharSpec(title, '/', '-');
    ReplaceCharSpec(once, '\\', '_');
    var r := DisplayName(title, ext);
    assert forall i | 0 <= i < |title| :: r[i] == SafeChar(title[i]);
  }

  /** `_nice_name(fileName, folder)`, with the sidecar texts that can be opened given as `text`. */
  function NiceName(fileName: string, folder: Path, text: map<Path, string>): (r: Result<string, NameError>)
    ensures r.Success? ==> IsAudioExt(SplitExt(fileName).1)
  {
    var ext := SplitExt(fileName).1;
    var sidecar := SidecarPath(fileName, folder);
    if !IsAudioExt(ext) then Failure(NotAudio)
    else if sidecar !in text then Failure(SidecarUnreadable)
    else match ExtractTitle(Head(text[sidecar]))
      case None => Failure(TitleMissing)
      case Some(title) => Success(DisplayName(title, ext))
  }

  /**
   * The three ways `_nice_name` fails, and nothing else: a non-audio
   * extension, a sidecar that cannot be opened, no `[TITLE]` in its head.
   */
  lemma NiceNameFailsExactly(fileName: string, folder: Path, text: map<Path, string>)
    ensures var ext := SplitExt(fileName).1; var sidecar := SidecarPath(fileName, folder);
      && (NiceName(fileName, folder, text) == Failure(NotAudio) <==> !IsAudioExt(ext))
      && (NiceName(fileName, folder, text) == Failure(SidecarUnreadable) <==>
            IsAudioExt(ext) && sidecar !in text)
      && (NiceName(fileName, folder, text) == Failure(TitleMissing) <==>
            IsAudioExt(ext) && sidecar in text && !Contains(Head(text[sidecar]), START_TAG))
  {
    var sidecar := SidecarPath(fileName, folder);
    if sidecar in text {
      ExtractTitleSpec(Head(text[sidecar]));
    }
  }

  /**
   * A successful display name: no "/" and no "\", the title's length plus the
   * extension's, ending in the real file's (audio) extension, and made from a
   * title found after the first `[TITLE]` of the sidecar's head.
   */
  lemma NiceNameShape(fileName: string, folder: Path, text: map<Path, string>)
    requires NiceName(fileName, folder, text).Success?
    ensures var n := NiceName(fileName, folder, text).value; var ext := SplitExt(fileName).1;
      var sidecar := SidecarPath(fileName, folder);
      && IsAudioExt(ext) && sidecar in text
      && ExtractTitle(Head(text[sidecar])).Some?
      && n == DisplayName(ExtractTitle(Head(text[sidecar])).value, ext)
      && '/' !in n && '\\' !in n
      && |n| == |ExtractTitle(Head(text[sidecar])).value| + |ext|
      && n[|n| - |ext|..] == ext
  {
    var ext := SplitExt(fileName).1;
    var sidecar := SidecarPath(fileName, folder);
    var title := ExtractTitle(Head(text[sidecar])).value;
    var n := DisplayName(title, ext);
    assert NiceName(fileName, folder, text).value == n;
    DisplayNameSpec(title, ext);
    AudioExtIsPlain(ext);
  }

  /** No audio extension holds a separator or a backslash. */
  lemma AudioExtIsPlain(ext: string)
    requires IsAudioExt(ext)
    ensures '/' !in ext && '\\' !in ext && |ext| == 4
  {
    assert ext == ".wav" || ext == ".WAV" || ext == ".mp3" || ext == ".MP3";
  }

  /**
   * `_nice_name` depends on nothing but the first 300 characters of the one
   * sidecar it derives from the file name.
   */
  lemma NiceNameReadsOnlySidecarHead(fileName: string, folder: Path, t1: map<Path, string>, t2: map<Path, string>)
    requires var s := SidecarPath(fileName, folder);
      (s in t1 <==> s in t2) && (s in t1 ==> Head(t1[s]) == Head(t2[s]))
    ensures NiceName(fileName, folder, t1) == NiceName(fileName, folder, t2)
  {
  }

  /** The sidecar of `base + ext` is `base + ".DBE"` in the same folder. */
  lemma SidecarOfAudioFile(base: string, ext: string, folder: Path)
    requires IsAudioExt(ext)
    requires '/' !in base
    requires exists i | 0 <= i < |base| :: base[i] != '.'
    ensures SplitExt(base + ext) == (base, ext)
    ensures SidecarPath(base + ext, folder) == Join(folder, base + SIDECAR_EXT)
  {
    SplitExtOfName(base, ext);
  }

  /** A file whose base name is only dots, such as ".mp3", has no extension, so it is not audio. */
  lemma DotsOnlyIsNotAudio(dots: string, ext: string, folder: Path, text: map<Path, string>)
    requires forall i | 0 <= i < |dots| :: dots[i] == '.'
    requires IsAudioExt(ext)
    ensures NiceName(dots + ext, folder, text) == Failure(NotAudio)
  {
    var p := dots + ext;
    assert p[|dots|] == '.';
    RFindSpec(p, '/');
    RFindSpec(p, '.');
    var dotIndex := RFind(p, '.');
    assert dotIndex == |dots|;
    assert RFind(p, '/') == -1;
    assert forall i | 0 <= i < dotIndex :: p[i] == '.';
  }
}
