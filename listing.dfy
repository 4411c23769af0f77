/**
 * What `DigasFilesystem._listdir` computes: the newest 1000 entries of a
 * directory, the names shown for them, and the display-path map it fills.
 */
module Listing {
  import opened Wrappers
  import opened Paths
  import opened Text
  import opened Naming

  /** A name `os.listdir` returns, with what `os.path.isdir` and `os.path.getmtime` say of it. */
  datatype Entry = Entry(name: string, isDir: bool, mtime: int)

  /** Only this many of the most recently modified entries are listed. */
  const RECENT_LIMIT := 1000

  function Min(a: int, b: int): int {
    if a < b then a else b
  }

  predicate NewestFirst(s: seq<Entry>) {
    forall i, j | 0 <= i < j < |s| :: s[i].mtime >= s[j].mtime
  }

  /** The entries of `s` modified at time `t`, in their order in `s`. */
  function WithMtime(s: seq<Entry>, t: int): seq<Entry> {
    if s == [] then [] else (if s[0].mtime == t then [s[0]] else []) + WithMtime(s[1..], t)
  }

  // ---------------------------------------------------------------------------
  // sorted(..., key=getmtime, reverse=True), a stable sort
  // ---------------------------------------------------------------------------

  /** Puts `e` before the first entry that is not newer than it. */
  function Insert(e: Entry, s: seq<Entry>): (r: seq<Entry>)
    ensures multiset(r) == multiset(s) + multiset{e}
  {
    if s == [] || s[0].mtime <= e.mtime then [e] + s
    else
      assert s == [s[0]] + s[1..];
      [s[0]] + Insert(e, s[1..])
  }

  /** Python's `sorted(s, key=mtime, reverse=True)`. */
  function SortNewestFirst(s: seq<Entry>): (r: seq<Entry>)
    ensures multiset(r) == multiset(s)
    ensures |r| == |s|
  {
    if s == [] then []
    else
      assert s == [s[0]] + s[1..];
      Insert(s[0], SortNewestFirst(s[1..]))
  }

  lemma {:induction false} InsertNewestFirst(e: Entry, s: seq<Entry>)
    requires NewestFirst(s)
    ensures NewestFirst(Insert(e, s))
  {
    if s != [] && s[0].mtime > e.mtime {
      var tail := Insert(e, s[1..]);
      InsertNewestFirst(e, s[1..]);
      forall x | x in tail
        ensures x.mtime <= s[0].mtime
      {
        assert x in multiset(tail);
        assert x == e || x in multiset(s[1..]);
      }
      assert Insert(e, s) == [s[0]] + tail;
    }
  }

  /** The sorted entries are newest first. */
  lemma {:induction false} SortIsNewestFirst(s: seq<Entry>)
    ensures NewestFirst(SortNewestFirst(s))
  {
    if s != [] {
      SortIsNewestFirst(s[1..]);
      InsertNewestFirst(s[0], SortNewestFirst(s[1..]));
    }
  }

  lemma {:induction false} InsertStable(e: Entry, s: seq<Entry>, t: int)
    ensures WithMtime(Insert(e, s), t) == (if e.mtime == t then [e] else []) + WithMtime(s, t)
  {
    if s == [] || s[0].mtime <= e.mtime {
      assert ([e] + s)[1..] == s;
    } else {
      var r := Insert(e, s);
      assert r[0] == s[0] && r[1..] == Insert(e, s[1..]);
      InsertStable(e, s[1..], t);
    }
  }

  /** The sort is stable: entries modified at the same time keep their listing order. */
  lemma {:induction false} SortIsStable(s: seq<Entry>, t: int)
    ensures WithMtime(SortNewestFirst(s), t) == WithMtime(s, t)
  {
    if s != [] {
      SortIsStable(s[1..], t);
      InsertStable(s[0], SortNewestFirst(s[1..]), t);
    }
  }

  lemma {:induction false} WithMtimeAppend(s1: seq<Entry>, s2: seq<Entry>, t: int)
    ensures WithMtime(s1 + s2, t) == WithMtime(s1, t) + WithMtime(s2, t)
  {
    if s1 != [] {
      var first := if s1[0].mtime == t then [s1[0]] else [];
      assert (s1 + s2)[0] == s1[0];
      assert (s1 + s2)[1..] == s1[1..] + s2;
      WithMtimeAppend(s1[1..], s2, t);
      assert WithMtime(s1 + s2, t) == first + WithMtime(s1[1..] + s2, t);
      assert WithMtime(s1, t) == first + WithMtime(s1[1..], t);
    } else {
      assert s1 + s2 == s2;
    }
  }

  // ---------------------------------------------------------------------------
  // [0:1000]
  // ---------------------------------------------------------------------------

  /** The entries `_listdir` walks: the newest `RECENT_LIMIT` of them, newest first. */
  function Recent(s: seq<Entry>): seq<Entry> {
    SortNewestFirst(s)[..Min(|s|, RECENT_LIMIT)]
  }

  /** The entries the cap leaves out. */
  function Overflow(s: seq<Entry>): seq<Entry> {
    SortNewestFirst(s)[Min(|s|, RECENT_LIMIT)..]
  }

  /**
   * At most 1000 entries are kept, newest first; together with the ones left
   * out they are the directory's entries; no entry left out is newer than a
   * kept one; and entries modified at the same time keep their listing order.
   */
  lemma RecentKeepsNewest(s: seq<Entry>, t: int)
    ensures |Recent(s)| == Min(|s|, RECENT_LIMIT)
    ensures NewestFirst(Recent(s))
    ensures multiset(Recent(s)) + multiset(Overflow(s)) == multiset(s)
    ensures forall i, j | 0 <= i < |Recent(s)| && 0 <= j < |Overflow(s)| ::
      Overflow(s)[j].mtime <= Recent(s)[i].mtime
    ensures WithMtime(Recent(s), t) + WithMtime(Overflow(s), t) == WithMtime(s, t)
  {
    var sorted := SortNewestFirst(s);
    var n := Min(|s|, RECENT_LIMIT);
    SortIsNewestFirst(s);
    SplitNewestFirst(sorted, n);
    SortIsStable(s, t);
    WithMtimeAppend(sorted[..n], sorted[n..], t);
    assert sorted == sorted[..n] + sorted[n..];
  }

  /** Cutting a newest-first sequence gives two newest-first parts, the first no older than the second. */
  lemma SplitNewestFirst(s: seq<Entry>, n: int)
    requires 0 <= n <= |s|
    requires NewestFirst(s)
    ensures NewestFirst(s[..n]) && NewestFirst(s[n..])
    ensures forall i, j | 0 <= i < n && 0 <= j < |s| - n :: s[n..][j].mtime <= s[..n][i].mtime
  {
    forall i, j | 0 <= i < n && 0 <= j < |s| - n
      ensures s[n..][j].mtime <= s[..n][i].mtime
    {
      assert s[n..][j] == s[n + j];
    }
  }

  // ---------------------------------------------------------------------------
  // The loop over the kept entries
  // ---------------------------------------------------------------------------

  /** A walked entry with what `_nice_name` says of it. */
  datatype Step = Step(entry: Entry, outcome: Result<string, NameError>)

  /**
   * `_nice_name`'s verdict on each entry of `s`, in order. The source skips
   * `_nice_name` for a non-audio extension; `NiceName` gives `NotAudio` for
   * those, so both paths lead to the entry not being renamed.
   */
  function Plan(dir: Path, s: seq<Entry>, text: map<Path, string>): (r: seq<Step>)
    ensures |r| == |s|
    ensures forall i | 0 <= i < |s| :: r[i].entry == s[i]
  {
    if s == [] then []
    else
      var e := s[|s| - 1];
      Plan(dir, s[..|s| - 1], text) + [Step(e, NiceName(e.name, dir, text))]
  }

  /** The verdict on entry `i` is `_nice_name` of that entry. */
  lemma {:induction false} PlanAt(dir: Path, s: seq<Entry>, text: map<Path, string>, i: int)
    requires 0 <= i < |s|
    ensures Plan(dir, s, text)[i] == Step(s[i], NiceName(s[i].name, dir, text))
  {
    if i < |s| - 1 {
      PlanAt(dir, s[..|s| - 1], text, i);
    }
  }

  /** Every display name in a plan is relative, so it lands inside `dir` when joined onto it. */
  lemma PlanNamesRelative(dir: Path, s: seq<Entry>, text: map<Path, string>)
    ensures var steps := Plan(dir, s, text);
      forall i | 0 <= i < |steps| :: steps[i].outcome.Success? ==> !StartsWithSep(steps[i].outcome.value)
  {
    var steps := Plan(dir, s, text);
    forall i | 0 <= i < |steps| && steps[i].outcome.Success?
      ensures !StartsWithSep(steps[i].outcome.value)
    {
      PlanAt(dir, s, text, i);
      NiceNameShape(s[i].name, dir, text);
    }
  }

  /** Walking one more step adds its names at the end. */
  lemma ShownSnoc(steps: seq<Step>, st: Step)
    ensures Shown(steps + [st]) == Shown(steps) + StepNames(st)
  {
    assert (steps + [st])[..|steps|] == steps;
  }

  /** Walking one more step registers at most its own display path. */
  lemma RegisteredSnoc(m: map<Path, Path>, dir: Path, steps: seq<Step>, st: Step)
    ensures Registered(m, dir, steps + [st]) ==
      if st.outcome.Success? then Registered(m, dir, steps)[Join(dir, st.outcome.value) := Join(dir, st.entry.name)]
      else Registered(m, dir, steps)
  {
    assert (steps + [st])[..|steps|] == steps;
  }

  lemma {:induction false} PlanAppend(dir: Path, s1: seq<Entry>, s2: seq<Entry>, text: map<Path, string>)
    ensures Plan(dir, s1 + s2, text) == Plan(dir, s1, text) + Plan(dir, s2, text)
  {
    if s2 != [] {
      var s2' := s2[..|s2| - 1];
      assert (s1 + s2)[..|s1 + s2| - 1] == s1 + s2';
      assert (s1 + s2)[|s1 + s2| - 1] == s2[|s2| - 1];
      PlanAppend(dir, s1, s2', text);
    } else {
      assert s1 + s2 == s1;
    }
  }

  /** The names one entry adds: a directory its own name, a renamed audio file its display name. */
  function StepNames(st: Step): seq<string> {
    (if st.entry.isDir then [st.entry.name] else []) +
    (if st.outcome.Success? then [st.outcome.value] else [])
  }

  /** Step `st` shows name `x`: as a directory's own name or as a display name. */
  predicate StepShows(st: Step, x: string) {
    (st.entry.isDir && st.entry.name == x) || st.outcome == Success(x)
  }

  /** The names one step adds are exactly the ones it shows. */
  lemma StepNamesShows(st: Step, x: string)
    ensures x in StepNames(st) <==> StepShows(st, x)
  {
  }

  /** The names `_listdir` returns after walking `steps`. */
  function Shown(steps: seq<Step>): seq<string> {
    if steps == [] then [] else Shown(steps[..|steps| - 1]) + StepNames(steps[|steps| - 1])
  }

  /** `fancy_filenames` after walking `steps` through `dir`, starting from `m`. */
  function Registered(m: map<Path, Path>, dir: Path, steps: seq<Step>): map<Path, Path> {
    if steps == [] then m
    else
      var before := Registered(m, dir, steps[..|steps| - 1]);
      var st := steps[|steps| - 1];
      if st.outcome.Success? then before[Join(dir, st.outcome.value) := Join(dir, st.entry.name)]
      else before
  }

  /** The names follow the walk: walking `s1 + s2` shows `s1`'s names, then `s2`'s. */
  lemma {:induction false} ShownAppend(s1: seq<Step>, s2: seq<Step>)
    ensures Shown(s1 + s2) == Shown(s1) + Shown(s2)
  {
    if s2 == [] {
      assert s1 + s2 == s1;
    } else {
      var s2' := s2[..|s2| - 1];
      assert (s1 + s2)[..|s1 + s2| - 1] == s1 + s2';
      assert (s1 + s2)[|s1 + s2| - 1] == s2[|s2| - 1];
      ShownAppend(s1, s2');
    }
  }

  /**
   * A name is shown exactly when some walked entry is a directory of that
   * name or an audio file renamed to it: a file that is neither never shows.
   */
  lemma {:induction false} ShownMembership(steps: seq<Step>, x: string)
    ensures x in Shown(steps) <==> exists i | 0 <= i < |steps| :: StepShows(steps[i], x)
  {
    if steps != [] {
      var s' := steps[..|steps| - 1];
      var last := steps[|steps| - 1];
      ShownMembership(s', x);
      StepNamesShows(last, x);
      assert Shown(steps) == Shown(s') + StepNames(last);
      if x in Shown(s') {
        var i :| 0 <= i < |s'| && StepShows(s'[i], x);
        assert steps[i] == s'[i];
      } else if StepShows(last, x) {
        assert StepShows(steps[|steps| - 1], x);
      }
      if exists i | 0 <= i < |steps| :: StepShows(steps[i], x) {
        var i :| 0 <= i < |steps| && StepShows(steps[i], x);
        if i < |s'| {
          assert s'[i] == steps[i];
        }
      }
    }
  }

  /**
   * An entry that is not a directory and gets no display name adds nothing:
   * its original name is not shown in its place. (By `NiceNameFailsExactly`
   * that is a file that is not audio, has no readable sidecar, or has no
   * `[TITLE]` in the sidecar's first 300 characters.)
   */
  lemma HiddenEntry(s1: seq<Step>, st: Step, s2: seq<Step>)
    requires !st.entry.isDir && st.outcome.Failure?
    ensures Shown(s1 + [st] + s2) == Shown(s1 + s2)
  {
    assert Shown([st]) == Shown([]) + StepNames(st) == [];
    ShownAppend(s1, [st]);
    ShownAppend(s1 + [st], s2);
    ShownAppend(s1, s2);
  }

  /**
   * Each entry adds at most two names (a directory whose name has an audio
   * extension adds its own name and its display name), and at most one when
   * no directory is renamed.
   */
  lemma {:induction false} ShownLength(steps: seq<Step>)
    ensures |Shown(steps)| <= 2 * |steps|
    ensures (forall i | 0 <= i < |steps| :: !steps[i].entry.isDir || steps[i].outcome.Failure?) ==>
      |Shown(steps)| <= |steps|
  {
    if steps != [] {
      var s' := steps[..|steps| - 1];
      ShownLength(s');
      assert forall i | 0 <= i < |s'| :: s'[i] == steps[i];
    }
  }

  /**
   * The bound of two names per entry is reached: a directory whose name has
   * an audio extension and whose sidecar carries a `[TITLE]` takes both
   * branches of the walk. It is shown under its own name, then under its
   * display name, and that display path is registered for it. A listing
   * capped at 1000 entries can therefore return up to 2000 names.
   */
  lemma AudioNamedDirectoryShownTwice(m: map<Path, Path>, dir: Path, base: string, ext: string, mtime: int,
                                      text: map<Path, string>)
    requires IsAudioExt(ext) && '/' !in base
    requires exists i | 0 <= i < |base| :: base[i] != '.'
    requires Join(dir, base + SIDECAR_EXT) in text
    requires Contains(Head(text[Join(dir, base + SIDECAR_EXT)]), START_TAG)
    ensures var steps := Plan(dir, [Entry(base + ext, true, mtime)], text);
      && NiceName(base + ext, dir, text).Success?
      && Shown(steps) == [base + ext, NiceName(base + ext, dir, text).value]
      && Registered(m, dir, steps) ==
           m[Join(dir, NiceName(base + ext, dir, text).value) := Join(dir, base + ext)]
  {
    var name := base + ext;
    SidecarOfAudioFile(base, ext, dir);
    NiceNameFailsExactly(name, dir, text);
    var steps := Plan(dir, [Entry(name, true, mtime)], text);
    PlanAt(dir, [Entry(name, true, mtime)], text, 0);
    assert steps[0].outcome.Success?;
    ShownSnoc([], steps[0]);
    RegisteredSnoc(m, dir, [], steps[0]);
    assert steps == [] + [steps[0]];
  }

  /** The display path a step registers, if any. */
  function Key(dir: Path, st: Step): Option<Path> {
    if st.outcome.Success? then Some(Join(dir, st.outcome.value)) else None
  }

  /** Walking never removes a display path, and leaves every path it does not produce as it was. */
  lemma {:induction false} RegisteredKeeps(m: map<Path, Path>, dir: Path, steps: seq<Step>, k: Path)
    ensures m.Keys <= Registered(m, dir, steps).Keys
    ensures (forall i | 0 <= i < |steps| :: Key(dir, steps[i]) != Some(k)) ==>
      (k in Registered(m, dir, steps) <==> k in m) &&
      (k in m ==> Registered(m, dir, steps)[k] == m[k])
  {
    if steps != [] {
      var s' := steps[..|steps| - 1];
      RegisteredKeeps(m, dir, s', k);
      assert forall i | 0 <= i < |s'| :: s'[i] == steps[i];
    }
  }

  /**
   * Every display name produced maps to its real file in the same directory,
   * and when several entries produce the same display name the one walked
   * last wins.
   */
  lemma {:induction false} RegisteredLastWins(m: map<Path, Path>, dir: Path, steps: seq<Step>, i: int)
    requires 0 <= i < |steps|
    requires steps[i].outcome.Success?
    requires forall j | 0 <= j < |steps| :: steps[j].outcome.Success? ==> !StartsWithSep(steps[j].outcome.value)
    requires forall j | i < j < |steps| :: steps[j].outcome != steps[i].outcome
    ensures Join(dir, steps[i].outcome.value) in Registered(m, dir, steps)
    ensures Registered(m, dir, steps)[Join(dir, steps[i].outcome.value)] == Join(dir, steps[i].entry.name)
  {
    var s' := steps[..|steps| - 1];
    var last := steps[|steps| - 1];
    var n := steps[i].outcome.value;
    if i < |steps| - 1 {
      assert s'[i] == steps[i];
      assert forall j | 0 <= j < |s'| :: s'[j] == steps[j];
      RegisteredLastWins(m, dir, s', i);
      if last.outcome.Success? && Join(dir, last.outcome.value) == Join(dir, n) {
        JoinInjective(dir, last.outcome.value, n);
        assert false;
      }
    }
  }

  /**
   * Two kept files with the same display name: its path goes to the one
   * walked last, which is the least recently modified of them.
   */
  lemma HomonymOldestWins(m: map<Path, Path>, dir: Path, entries: seq<Entry>, text: map<Path, string>, i: int)
    requires 0 <= i < |Recent(entries)|
    requires var steps := Plan(dir, Recent(entries), text);
      steps[i].outcome.Success? && forall j | i < j < |steps| :: steps[j].outcome != steps[i].outcome
    ensures var steps := Plan(dir, Recent(entries), text); var n := steps[i].outcome.value;
      && Join(dir, n) in Registered(m, dir, steps)
      && Registered(m, dir, steps)[Join(dir, n)] == Join(dir, Recent(entries)[i].name)
      && forall j | 0 <= j < |steps| && steps[j].outcome == Success(n) ::
           Recent(entries)[i].mtime <= Recent(entries)[j].mtime
  {
    var steps := Plan(dir, Recent(entries), text);
    PlanNamesRelative(dir, Recent(entries), text);
    RegisteredLastWins(m, dir, steps, i);
    RecentKeepsNewest(entries, 0);
  }
}
