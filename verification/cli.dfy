/**
 * The command-line tool around the converter: argument validation, the
 * ignore mask built from filter names, the per-file step and the three
 * import phases. The file system is a map from existing paths to the assets
 * they read as, directory crawling is a parameter, and whether an export
 * succeeds is a predicate on the destination path.
 */
module Cli {

  import opened Wrappers
  import opened Msh
  import opened Purposes
  import opened Diagnostics
  import opened Registration
  import opened Paths
  import Session

  // ---------------------------------------------------------------------------
  // The progress label

  /** The progress line leaves this many characters for the text after the bar. */
  const LabelWidth: nat := 40

  function Spaces(n: nat): (r: string)
    ensures |r| == n && forall i :: 0 <= i < n ==> r[i] == ' '
  {
    if n == 0 then "" else Spaces(n - 1) + " "
  }

  /**
   * The text shown beside the progress bar: always exactly 40 characters;
   * a short text is padded with spaces, a long one keeps its first 37
   * characters followed by three dots.
   */
  function ProgressLabel(text: string): (r: string)
    ensures |r| == LabelWidth
    ensures |text| <= LabelWidth ==> r[..|text|] == text && forall i :: |text| <= i < LabelWidth ==> r[i] == ' '
    ensures |text| > LabelWidth ==> r[..37] == text[..37] && r[37..] == "..."
  {
    if |text| <= LabelWidth then text + Spaces(LabelWidth - |text|)
    else text[..37] + "..."
  }

  /** `s` without its trailing spaces. */
  function TrimEnd(s: string): (r: string)
    ensures |r| <= |s| && r == s[..|r|]
    ensures r == "" || r[|r| - 1] != ' '
    ensures forall i :: |r| <= i < |s| ==> s[i] == ' '
  {
    if s != "" && s[|s| - 1] == ' ' then TrimEnd(s[..|s| - 1]) else s
  }

  /** A short text that does not end in a space is recovered from its label. */
  lemma LabelRoundTrip(text: string)
    requires |text| <= LabelWidth && (text == "" || text[|text| - 1] != ' ')
    ensures TrimEnd(ProgressLabel(text)) == text
  {
    var s := ProgressLabel(text);
    assert forall i :: |text| <= i < |s| ==> s[i] == ' ';
  }

  /** Two long texts get the same label exactly when their first 37 characters agree. */
  lemma LongLabelsAgree(a: string, b: string)
    requires |a| > LabelWidth && |b| > LabelWidth
    ensures ProgressLabel(a) == ProgressLabel(b) <==> a[..37] == b[..37]
  {
    var la, lb := ProgressLabel(a), ProgressLabel(b);
    if la == lb {
      assert a[..37] == la[..37] == lb[..37] == b[..37];
    } else {
      assert la == la[..37] + la[37..] && lb == lb[..37] + lb[37..];
    }
  }

  // ---------------------------------------------------------------------------
  // The ignore mask

  /** The filter option table: the purpose a name stands for, if it is an option. */
  type FilterTable = string -> Option<Purpose>

  /**
   * The ignore mask: the union of the purposes the filter options name in
   * `table`, with a warning for every name that is not an option. The tool
   * uses it with `FilterPurpose`.
   */
  function IgnoreMask(names: seq<string>, table: FilterTable): (r: (Purpose, Log))
    ensures forall f :: f in r.0 <==>
      exists i :: 0 <= i < |names| && table(names[i]).Some? && f in table(names[i]).value
    ensures forall k :: 0 <= k < |r.1| ==>
      r.1[k].severity == Warning && r.1[k].event.InvalidFilterOption? &&
      r.1[k].event.name in names && table(r.1[k].event.name).None?
    ensures r.1 == [] <==> forall i :: 0 <= i < |names| ==> table(names[i]).Some?
    ensures |r.1| == |InvalidNames(names, table)|
    ensures forall k :: 0 <= k < |r.1| ==> r.1[k] == Warn(InvalidFilterOption(InvalidNames(names, table)[k]))
  {
    if names == [] then ({}, [])
    else
      var rest, n := names[..|names| - 1], names[|names| - 1];
      assert names == rest + [n];
      var prev := IgnoreMask(rest, table);
      AddNameFits(prev, rest, n, table);
      AddName(prev, n, table)
  }

  /** `m` is the union of the purposes the valid names among `names` denote. */
  predicate MaskFits(m: Purpose, names: seq<string>, table: FilterTable) {
    forall f :: f in m <==> exists i :: 0 <= i < |names| && table(names[i]).Some? && f in table(names[i]).value
  }

  /** `log` is one invalid-option warning per invalid name of `names`, in order. */
  predicate WarningsFit(log: Log, names: seq<string>, table: FilterTable) {
    |log| == |InvalidNames(names, table)| &&
    forall k :: 0 <= k < |log| ==> log[k] == Warn(InvalidFilterOption(InvalidNames(names, table)[k]))
  }

  /** Adding one more name keeps the mask and the warnings in step with the names. */
  lemma AddNameFits(acc: (Purpose, Log), rest: seq<string>, n: string, table: FilterTable)
    requires MaskFits(acc.0, rest, table) && WarningsFit(acc.1, rest, table)
    ensures MaskFits(AddName(acc, n, table).0, rest + [n], table)
    ensures WarningsFit(AddName(acc, n, table).1, rest + [n], table)
  {
    var names := rest + [n];
    assert forall i :: 0 <= i < |rest| ==> names[i] == rest[i];
    assert names[|rest|] == n;
    InvalidNamesSnoc(rest, n, table);
  }

  /** The names that are not filter options, in the order given. */
  function InvalidNames(names: seq<string>, table: FilterTable): (r: seq<string>)
    ensures |r| <= |names|
    ensures forall x :: x in r ==> x in names && table(x).None?
    ensures r == [] <==> forall i :: 0 <= i < |names| ==> table(names[i]).Some?
  {
    if names == [] then []
    else (if table(names[0]).None? then [names[0]] else []) + InvalidNames(names[1..], table)
  }

  /** A name added at the end is an invalid name at the end, or nothing. */
  lemma {:induction false} InvalidNamesSnoc(names: seq<string>, n: string, table: FilterTable)
    ensures InvalidNames(names + [n], table) == InvalidNames(names, table) + (if table(n).None? then [n] else [])
  {
    if names == [] {
      assert [n][1..] == [];
    } else {
      var head := if table(names[0]).None? then [names[0]] else [];
      assert (names + [n])[0] == names[0] && (names + [n])[1..] == names[1..] + [n];
      assert InvalidNames(names + [n], table) == head + InvalidNames(names[1..] + [n], table);
      InvalidNamesSnoc(names[1..], n, table);
      assert head + (InvalidNames(names[1..], table) + (if table(n).None? then [n] else []))
          == (head + InvalidNames(names[1..], table)) + (if table(n).None? then [n] else []);
    }
  }

  /** One filter option: its purpose joins the mask, or a warning joins the log. */
  function AddName(acc: (Purpose, Log), n: string, table: FilterTable): (r: (Purpose, Log)) {
    match table(n)
    case Some(p) => (acc.0 + p, acc.1)
    case None => (acc.0, acc.1 + [Warn(InvalidFilterOption(n))])
  }

  /** Building the mask over two lists of names is building it over each and joining. */
  lemma {:induction false} IgnoreMaskAppend(a: seq<string>, b: seq<string>, table: FilterTable)
    ensures var (ma, la) := IgnoreMask(a, table);
      var (mb, lb) := IgnoreMask(b, table);
      IgnoreMask(a + b, table) == (ma + mb, la + lb)
    decreases |b|
  {
    if b == [] {
      assert a + b == a;
      var (ma, la) := IgnoreMask(a, table);
      assert ma + {} == ma && la + [] == la;
    } else {
      var b', n := b[..|b| - 1], b[|b| - 1];
      assert IgnoreMask(a + b, table) == AddName(IgnoreMask(a + b', table), n, table) by {
        assert (a + b)[..|a + b| - 1] == a + b';
        assert (a + b)[|a + b| - 1] == n;
      }
      IgnoreMaskAppend(a, b', table);
      AddNameShifts(IgnoreMask(a, table), IgnoreMask(b', table), n, table);
    }
  }

  /** Adding a name after a join is adding it to the right part. */
  lemma AddNameShifts(x: (Purpose, Log), y: (Purpose, Log), n: string, table: FilterTable)
    ensures AddName((x.0 + y.0, x.1 + y.1), n, table) == (x.0 + AddName(y, n, table).0, x.1 + AddName(y, n, table).1)
  {
    match table(n)
    case Some(p) =>
      assert x.0 + y.0 + p == x.0 + (y.0 + p);
    case None =>
      assert x.1 + y.1 + [Warn(InvalidFilterOption(n))] == x.1 + (y.1 + [Warn(InvalidFilterOption(n))]);
  }

  // ---------------------------------------------------------------------------
  // Argument validation

  /** One destination for everything, or one next to each input. */
  datatype Mode = SingleFile | PerFile

  datatype Checked = Accepted(mode: Mode) | Rejected(reason: Event)

  /**
   * The checks `main` makes before converting anything, in order: a
   * directory destination must exist, any other destination must carry the
   * ".fbx" extension, a base pose needs a single destination file, and some
   * input must be given.
   */
  function CheckArguments(dest: string, destExists: bool, basepose: string,
                          files: seq<string>, anims: seq<string>, models: seq<string>): (r: Checked)
    ensures r == Accepted(SingleFile) <==>
      dest != "" && Extension(dest) == ".fbx" && (files != [] || anims != [] || models != [])
    ensures r == Accepted(PerFile) <==>
      dest == "" && basepose == "" && (files != [] || anims != [] || models != [])
    ensures r == Rejected(NoInputFiles) ==> files == [] && anims == [] && models == []
  {
    if dest != "" && IsDirectory(dest) && !destExists then Rejected(DestinationDirectoryMissing)
    else if dest != "" && Extension(dest) != ".fbx" then Rejected(MissingFbxExtension)
    else
      var single := dest != "";
      if !single && basepose != "" then Rejected(BaseposeNeedsSingleFile)
      else if files == [] && anims == [] && models == [] then Rejected(NoInputFiles)
      else Accepted(if single then SingleFile else PerFile)
  }

  /** A file name the tool takes for a directory ("", "." or "..") has no extension. */
  lemma DirectoryHasNoExtension(f: string)
    requires f == "" || f == "." || f == ".."
    ensures ExtensionStart(f) == |f|
  {
  }

  /**
   * A destination naming a directory is always refused, existing or not,
   * although the tool's help text offers directories as destinations.
   */
  lemma DirectoryDestinationRefused(dest: string, destExists: bool, basepose: string,
                                    files: seq<string>, anims: seq<string>, models: seq<string>)
    requires dest != "" && IsDirectory(dest)
    ensures var r := CheckArguments(dest, destExists, basepose, files, anims, models);
      r == Rejected(if destExists then MissingFbxExtension else DestinationDirectoryMissing)
  {
    assert Extension(dest) == "" by {
      DirectoryHasNoExtension(Filename(dest));
    }
  }

  // ---------------------------------------------------------------------------
  // One input file

  /** Whether the outcome of exporting to a path is a success. */
  type ExportOutcome = string -> bool

  /** The destination of an input in per-file mode: the input with extension ".fbx". */
  function FbxPathFor(p: string): string {
    ReplaceExtension(p, ".fbx")
  }

  /** The session after a step and whether the step succeeded. */
  datatype Step = Step(st: Session.Session, ok: bool)

  /** The switches a step may not change. */
  predicate SameSwitches(a: Settings, b: Settings) {
    a.chunkFilter == b.chunkFilter && a.ignore == b.ignore && a.emptyMeshes == b.emptyMeshes
  }

  /** Per-file mode reopens the session on a new destination; from a valid session that always works. */
  function Reopen(st: Session.Session, path: string, fs: Session.FileSystem): (r: Session.Outcome)
    requires Session.Valid(st)
    ensures r.ok && Session.Valid(r.st) && r.st.running && r.st.fbxPath == path
    ensures r.st.settings == st.settings && r.st.baseposePath == st.baseposePath
  {
    Session.Start(Session.Close(st), path, fs)
  }

  /**
   * Adds one input, naming its animation after the input's stem when asked.
   * The override name is reset only when the asset was added.
   */
  function AddInput(st: Session.Session, p: string, overrideAnimName: bool, fs: Session.FileSystem,
                    co: Collaborators): (r: Session.Outcome)
    requires Session.Valid(st)
    ensures Session.Valid(r.st) && SameSwitches(r.st.settings, st.settings)
    ensures r.st.baseposePath == st.baseposePath && r.st.running == st.running && r.st.fbxPath == st.fbxPath
    ensures r.ok <==> st.running && Session.Exists(fs, p)
    ensures r.ok ==> r.st.settings.overrideAnimName == ""
    ensures !r.ok ==> r.st.settings.overrideAnimName == (if overrideAnimName then Stem(p) else st.settings.overrideAnimName)
  {
    // The conversion's own contract is all the session facts need.
    hide Session.Convert;
    var s1 := if overrideAnimName then st.(settings := st.settings.(overrideAnimName := Stem(p))) else st;
    var a := Session.AddMsh(s1, p, fs, co);
    if a.ok then Session.Outcome(a.st.(settings := a.st.settings.(overrideAnimName := "")), true) else a
  }

  /**
   * Converts one input. In per-file mode the session is closed and started
   * again on the input's ".fbx" path first, and saved afterwards; an input
   * that cannot be added closes it. In per-file mode an input succeeds
   * exactly when it exists and its export succeeds; in single-file mode a
   * running session stays running on its destination and an input succeeds
   * exactly when it exists. An input that cannot be added leaves its stem
   * behind as the animation name override.
   */
  method ProcessMsh(st: Session.Session, p: string, overrideAnimName: bool, createFbx: bool,
                    fs: Session.FileSystem, co: Collaborators, exportOk: ExportOutcome) returns (r: Step)
    requires Session.Valid(st)
    ensures Session.Valid(r.st) && SameSwitches(r.st.settings, st.settings) && r.st.baseposePath == st.baseposePath
    ensures r.ok ==> r.st.running && r.st.settings.overrideAnimName == ""
    ensures createFbx ==>
      && (r.ok <==> Session.Exists(fs, p) && exportOk(FbxPathFor(p)))
      && (Session.Exists(fs, p) ==> r.st.running && r.st.fbxPath == FbxPathFor(p))
      && (!Session.Exists(fs, p) ==> !r.st.running)
    ensures !createFbx && st.running ==> (r.ok <==> Session.Exists(fs, p)) && r.st.running && r.st.fbxPath == st.fbxPath
    ensures !createFbx && !st.running ==> !r.ok
    ensures !Session.Exists(fs, p) ==>
      r.st.settings.overrideAnimName == (if overrideAnimName then Stem(p) else st.settings.overrideAnimName)
  {
    if createFbx {
      r := ProcessPerFile(st, p, overrideAnimName, fs, co, exportOk);
    } else {
      r := ProcessIntoOpen(st, p, overrideAnimName, fs, co);
    }
  }

  /** Per-file mode: reopen on the input's ".fbx" path, add the input, then save or close. */
  method ProcessPerFile(st: Session.Session, p: string, overrideAnimName: bool,
                        fs: Session.FileSystem, co: Collaborators, exportOk: ExportOutcome) returns (r: Step)
    requires Session.Valid(st)
    ensures Session.Valid(r.st) && SameSwitches(r.st.settings, st.settings) && r.st.baseposePath == st.baseposePath
    ensures r.ok ==> r.st.running && r.st.settings.overrideAnimName == ""
    ensures r.ok <==> Session.Exists(fs, p) && exportOk(FbxPathFor(p))
    ensures Session.Exists(fs, p) ==> r.st.running && r.st.fbxPath == FbxPathFor(p)
    ensures !Session.Exists(fs, p) ==> !r.st.running
    ensures !Session.Exists(fs, p) ==>
      r.st.settings.overrideAnimName == (if overrideAnimName then Stem(p) else st.settings.overrideAnimName)
  {
    hide Session.Convert, Session.Start, Reopen, Session.SaveFbx, Session.Close;
    var cur := Reopen(st, FbxPathFor(p), fs).st;
    var a := AddInput(cur, p, overrideAnimName, fs, co);
    if !a.ok {
      CloseStops(a.st);
      return Step(Session.Close(a.st), false);
    }
    SaveKeeps(a.st, exportOk(a.st.fbxPath));
    var o := Session.SaveFbx(a.st, exportOk(a.st.fbxPath));
    return Step(o.st, o.ok);
  }

  /** Closing a running session stops it and keeps its settings. */
  lemma CloseStops(st: Session.Session)
    requires Session.Valid(st) && st.running
    ensures var c := Session.Close(st);
      Session.Valid(c) && !c.running && c.settings == st.settings && c.baseposePath == st.baseposePath
  {
  }

  /** Saving a running session keeps it running on the same destination and settings; success is the export's. */
  lemma SaveKeeps(st: Session.Session, exported: bool)
    requires Session.Valid(st) && st.running
    ensures var o := Session.SaveFbx(st, exported);
      && o.ok == exported && Session.Valid(o.st) && o.st.running && o.st.fbxPath == st.fbxPath
      && o.st.settings == st.settings && o.st.baseposePath == st.baseposePath
  {
    var o := Session.SaveFbx(st, exported);
    assert o.st == st.(log := o.st.log);
  }

  /** Single-file mode: add the input to the session as it is. */
  method ProcessIntoOpen(st: Session.Session, p: string, overrideAnimName: bool,
                         fs: Session.FileSystem, co: Collaborators) returns (r: Step)
    requires Session.Valid(st)
    ensures Session.Valid(r.st) && SameSwitches(r.st.settings, st.settings) && r.st.baseposePath == st.baseposePath
    ensures r.ok ==> r.st.running && r.st.settings.overrideAnimName == ""
    ensures st.running ==> (r.ok <==> Session.Exists(fs, p)) && r.st.running && r.st.fbxPath == st.fbxPath
    ensures !st.running ==> !r.ok
    ensures !Session.Exists(fs, p) ==>
      r.st.settings.overrideAnimName == (if overrideAnimName then Stem(p) else st.settings.overrideAnimName)
  {
    hide Session.Convert;
    var a := AddInput(st, p, overrideAnimName, fs, co);
    return Step(a.st, a.ok);
  }

  // ---------------------------------------------------------------------------
  // The phases

  /** Each path paired with the chunk filter it was converted with. */
  function Tagged(paths: seq<string>, filter: ChunkFilter): (r: seq<(string, ChunkFilter)>)
    ensures |r| == |paths| && forall i :: 0 <= i < |r| ==> r[i] == (paths[i], filter)
  {
    seq(|paths|, i requires 0 <= i < |paths| => (paths[i], filter))
  }

  /** How many of `paths` satisfy `pred`. */
  function CountIf(paths: seq<string>, pred: string -> bool): (r: nat)
    ensures r <= |paths|
  {
    if paths == [] then 0
    else CountIf(paths[..|paths| - 1], pred) + (if pred(paths[|paths| - 1]) then 1 else 0)
  }

  /**
   * Whether an input succeeds when the session is in the state each mode
   * keeps it in: it must exist, and in per-file mode its export must succeed.
   */
  function Succeeds(fs: Session.FileSystem, exportOk: ExportOutcome, createFbx: bool): string -> bool {
    p => Session.Exists(fs, p) && (createFbx ==> exportOk(FbxPathFor(p)))
  }

  /**
   * The result of one phase: the session, the number of inputs that
   * succeeded, and each input with the chunk filter it was converted with.
   */
  datatype Batch = Batch(st: Session.Session, successes: nat, trace: seq<(string, ChunkFilter)>)

  /**
   * Converts the inputs of one phase in order, counting the successes. In
   * per-file mode, and in single-file mode on a running session, the count
   * is the number of inputs that succeed on their own.
   */
  method ProcessAll(st0: Session.Session, paths: seq<string>, overrideAnimName: bool, createFbx: bool,
                    fs: Session.FileSystem, co: Collaborators, exportOk: ExportOutcome) returns (r: Batch)
    requires Session.Valid(st0)
    ensures Session.Valid(r.st) && SameSwitches(r.st.settings, st0.settings) && r.st.baseposePath == st0.baseposePath
    ensures r.trace == Tagged(paths, st0.settings.chunkFilter)
    ensures createFbx ==> r.successes == CountIf(paths, Succeeds(fs, exportOk, true))
    ensures !createFbx && st0.running ==>
      r.st.running && r.st.fbxPath == st0.fbxPath && r.successes == CountIf(paths, Succeeds(fs, exportOk, false))
  {
    var st, successes, trace := st0, 0, [];
    for i := 0 to |paths|
      invariant Session.Valid(st) && SameSwitches(st.settings, st0.settings) && st.baseposePath == st0.baseposePath
      invariant trace == Tagged(paths[..i], st0.settings.chunkFilter)
      invariant createFbx ==> successes == CountIf(paths[..i], Succeeds(fs, exportOk, true))
      invariant !createFbx && st0.running ==>
        st.running && st.fbxPath == st0.fbxPath && successes == CountIf(paths[..i], Succeeds(fs, exportOk, false))
    {
      var s := ProcessMsh(st, paths[i], overrideAnimName, createFbx, fs, co, exportOk);
      assert paths[..i + 1][..i] == paths[..i];
      assert Tagged(paths[..i + 1], st0.settings.chunkFilter) == trace + [(paths[i], st.settings.chunkFilter)] by {
        assert st.settings.chunkFilter == st0.settings.chunkFilter;
      }
      st, successes, trace := s.st, successes + (if s.ok then 1 else 0), trace + [(paths[i], st.settings.chunkFilter)];
    }
    assert paths[..|paths|] == paths;
    r := Batch(st, successes, trace);
  }

  // ---------------------------------------------------------------------------
  // The whole run

  /** The command line after parsing: input lists, destination, base pose, switches and filter names. */
  datatype Args = Args(
    files: seq<string>, anims: seq<string>, models: seq<string>,
    dest: string, destExists: bool, basepose: string,
    overrideAnimName: bool, recursive: bool, emptyMeshes: bool, ignore: seq<string>)

  /** Expands the given paths into the asset files found, recursively or not. */
  type Crawl = (seq<string>, bool) -> seq<string>

  /**
   * How a run ends: refused before converting anything, or finished with the
   * final session, the number of inputs that succeeded, whether a single
   * destination was saved, the warnings printed, and each input with its
   * chunk filter.
   */
  datatype Exit =
    | Refused(reason: Event)
    | Finished(st: Session.Session, successes: nat, saved: bool, console: Log, trace: seq<(string, ChunkFilter)>)

  function WithChunkFilter(st: Session.Session, filter: ChunkFilter): (r: Session.Session)
    ensures r.settings.chunkFilter == filter && r == st.(settings := r.settings)
    ensures r.settings.ignore == st.settings.ignore && r.settings.emptyMeshes == st.settings.emptyMeshes
  {
    st.(settings := st.settings.(chunkFilter := filter))
  }

  function Arguments(args: Args): Checked {
    CheckArguments(args.dest, args.destExists, args.basepose, args.files, args.anims, args.models)
  }

  /** How many inputs of the three phases satisfy `pred`. */
  function Counted(models: seq<string>, files: seq<string>, anims: seq<string>, pred: string -> bool): nat {
    CountIf(models, pred) + CountIf(files, pred) + CountIf(anims, pred)
  }

  /** The number of inputs over the three phases that succeed on their own. */
  function Expected(args: Args, crawl: Crawl, fs: Session.FileSystem, exportOk: ExportOutcome, createFbx: bool): nat {
    Counted(crawl(args.models, args.recursive), crawl(args.files, args.recursive), crawl(args.anims, args.recursive),
            Succeeds(fs, exportOk, createFbx))
  }

  /**
   * The three phases on one session: model inputs with animations filtered
   * out, full inputs with nothing filtered, animation inputs with models
   * filtered out.
   */
  method Phases(st: Session.Session, models: seq<string>, files: seq<string>, anims: seq<string>,
                overrideAnimName: bool, createFbx: bool, fs: Session.FileSystem, co: Collaborators,
                exportOk: ExportOutcome) returns (r: Batch)
    requires Session.Valid(st)
    ensures Session.Valid(r.st) && r.st.baseposePath == st.baseposePath
    ensures r.st.settings.ignore == st.settings.ignore && r.st.settings.emptyMeshes == st.settings.emptyMeshes
    ensures r.trace == Tagged(models, {Purposes.Animations}) + Tagged(files, {}) + Tagged(anims, {Purposes.Models})
    ensures createFbx ==> r.successes == Counted(models, files, anims, Succeeds(fs, exportOk, true))
    ensures !createFbx && st.running ==>
      r.st.running && r.successes == Counted(models, files, anims, Succeeds(fs, exportOk, false))
  {
    var b1 := ProcessAll(WithChunkFilter(st, {Purposes.Animations}), models, overrideAnimName, createFbx, fs, co, exportOk);
    var b2 := ProcessAll(WithChunkFilter(b1.st, {}), files, overrideAnimName, createFbx, fs, co, exportOk);
    var b3 := ProcessAll(WithChunkFilter(b2.st, {Purposes.Models}), anims, overrideAnimName, createFbx, fs, co, exportOk);
    r := Batch(b3.st, b1.successes + b2.successes + b3.successes, b1.trace + b2.trace + b3.trace);
  }

  /**
   * The end of a run: a single destination is saved when some input
   * succeeded, and closed either way; in per-file mode the session is left
   * as the last input left it.
   */
  function Finish(st: Session.Session, single: bool, successes: nat, exportOk: ExportOutcome): (r: (Session.Session, bool))
    requires Session.Valid(st)
    ensures Session.Valid(r.0) && r.0.settings == st.settings && r.0.baseposePath == st.baseposePath
    ensures r.1 <==> single && successes > 0
    ensures single ==> !r.0.running
    ensures !single ==> r.0 == st
  {
    var saved := single && successes > 0;
    var last := if saved then Session.SaveFbx(st, exportOk(st.fbxPath)).st else st;
    (if single then Session.Close(last) else last, saved)
  }

  /**
   * The tool's main flow: validate the arguments, crawl the inputs, start
   * the session on the destination, build the ignore mask, run the three
   * phases and finish.
   */
  method RunTool(args: Args, crawl: Crawl, fs: Session.FileSystem, co: Collaborators, exportOk: ExportOutcome)
    returns (r: Exit)
    ensures r.Refused? <==> Arguments(args).Rejected?
    ensures r.Refused? ==> r.reason == Arguments(args).reason
    ensures r.Finished? ==>
      && Session.Valid(r.st) && r.st.baseposePath == args.basepose && r.st.settings.emptyMeshes == args.emptyMeshes
      && r.st.settings.ignore == IgnoreMask(args.ignore, FilterPurpose).0
      && r.console == IgnoreMask(args.ignore, FilterPurpose).1
      && r.trace == Tagged(crawl(args.models, args.recursive), {Purposes.Animations})
                    + Tagged(crawl(args.files, args.recursive), {})
                    + Tagged(crawl(args.anims, args.recursive), {Purposes.Models})
    ensures Arguments(args) == Accepted(SingleFile) ==>
      && !r.st.running && r.successes == Expected(args, crawl, fs, exportOk, false)
      && (r.saved <==> r.successes > 0)
    ensures Arguments(args) == Accepted(PerFile) ==>
      r.successes == Expected(args, crawl, fs, exportOk, true) && !r.saved
  {
    match Arguments(args)
    case Rejected(e) =>
      r := Refused(e);
    case Accepted(mode) =>
      var single := mode == SingleFile;
      var started := Session.Start(Session.Fresh(args.basepose, Settings({}, {}, args.emptyMeshes, "")), args.dest, fs).st;
      var (mask, warnings) := IgnoreMask(args.ignore, FilterPurpose);
      var b := Phases(started.(settings := started.settings.(ignore := mask)),
                      crawl(args.models, args.recursive), crawl(args.files, args.recursive), crawl(args.anims, args.recursive),
                      args.overrideAnimName, !single, fs, co, exportOk);
      var (last, saved) := Finish(b.st, single, b.successes, exportOk);
      r := Finished(last, b.successes, saved, warnings, b.trace);
  }
}
