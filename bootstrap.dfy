/**
 * The dotfile materializer of bootstrap.rb: which globbed entries are
 * processed (`get_files_to_process`), where each one lands under $HOME
 * (`install`, lines 21-46) and how it gets there (`process_file`).
 *
 * The functions below are the specification, one per Ruby method, over a
 * `World` value; the class `Machine` runs the same steps statement by
 * statement on mutable state and is proved to agree with them.
 */
module Bootstrap {
  import opened Wrappers
  import opened Paths
  import opened Fs

  /** The names subtracted from the glob (bootstrap.rb:50). */
  const Excluded: seq<string> := ["bootstrap.rb", "defaults.yml", "README.md", "LICENSE", "oh-my-zsh", ".gitignore"]

  /**
   * What the loop takes from its surroundings: $HOME, the working directory
   * the relative names are resolved against, and ERB rendering of a
   * template with DEFAULTS bound, which is None where rendering raises.
   */
  datatype Env = Env(home: Path, cwd: Path, erb: string -> Option<string>)

  /** The lines `install` and `process_file` print. */
  datatype Event =
    | Listing(files: seq<Path>)
    | MakingDirs(dir: Path)
    | Processing(rel: Path, target: Path)
    | FilesIdentical
    | Removing(target: Path)
    | Skipping(target: Path)
    | Generating(target: Path)
    | Symlinking(target: Path, src: Path)

  /** The exceptions that end the run: `nil` from `split`, a template error, a system call error. */
  datatype Failure = NilRelative(src: Path) | TemplateError(src: Path) | Io(error: IoError)

  /** How one entry ended. */
  datatype Status = Done | Skipped | Aborted(failure: Failure)

  /** How the whole loop ended; an exception stops it at the entry that raised. */
  datatype Outcome = Completed | Stopped(src: Path, failure: Failure)

  /** Everything the loop changes: the filesystem, the operator's remaining answers, the output. */
  datatype World = World(fs: FileSystem, answers: seq<bool>, log: seq<Event>)

  // ---------------------------------------------------------------------
  // get_files_to_process (bootstrap.rb:49-53)

  /** Ruby's `a - b`: the elements of `a` equal to no element of `b`, in order. */
  function Without(a: seq<Path>, b: seq<Path>): (r: seq<Path>)
    ensures forall x :: x in r <==> x in a && x !in b
    ensures |r| <= |a|
    decreases |a|
  {
    if a == [] then [] else (if a[0] in b then [] else [a[0]]) + Without(a[1..], b)
  }

  /** `files.reject! { |f| File.directory?(f) }` with `f` relative to `cwd`. */
  function NonDirectories(files: seq<Path>, fs: FileSystem, cwd: Path): (r: seq<Path>)
    ensures forall x :: x in r <==> x in files && !IsDirectory(fs, AbsolutePath(cwd, x))
    ensures |r| <= |files|
    decreases |files|
  {
    if files == [] then []
    else
      var last := files[|files| - 1];
      NonDirectories(files[..|files| - 1], fs, cwd) + (if IsDirectory(fs, AbsolutePath(cwd, last)) then [] else [last])
  }

  /** Rejecting directories one more entry further along. */
  lemma NonDirectoriesSnoc(files: seq<Path>, i: nat, fs: FileSystem, cwd: Path)
    requires i < |files|
    ensures NonDirectories(files[..i + 1], fs, cwd) ==
      NonDirectories(files[..i], fs, cwd) + (if IsDirectory(fs, AbsolutePath(cwd, files[i])) then [] else [files[i]])
  {
    assert files[..i + 1][..i] == files[..i];
  }

  /** The list `get_files_to_process` returns for the glob result `globbed`. */
  function SelectedFiles(globbed: seq<Path>, fs: FileSystem, cwd: Path): (r: seq<Path>)
    ensures forall x :: x in r <==> x in globbed && x !in Excluded && !IsDirectory(fs, AbsolutePath(cwd, x))
    ensures |r| <= |globbed|
  {
    NonDirectories(Without(globbed, Excluded), fs, cwd)
  }

  // ---------------------------------------------------------------------
  // The per-entry decision (bootstrap.rb:30-43)

  /** The four ways an entry can go once its target is known. */
  datatype Decision = Absent | Same | Overwrite | Decline

  /** `Ask.confirm(..., default: false)`: the next scripted answer, "no" once the script is used up. */
  function Confirmed(answers: seq<bool>): bool
  {
    |answers| > 0 && answers[0]
  }

  /** The answers left after `k` prompts; an exhausted script stays empty. */
  function Drop(answers: seq<bool>, k: nat): seq<bool>
  {
    if k >= |answers| then [] else answers[k..]
  }

  /** The answers left after one prompt. */
  function AfterPrompt(answers: seq<bool>): seq<bool>
  {
    Drop(answers, 1)
  }

  /** Lines 30-35: existence first, then identity of `probe` and the target, then the operator. */
  function Decide(fs: FileSystem, probe: Path, target: Path, answers: seq<bool>): (d: Decision)
    ensures d == Absent <==> !Exists(fs, target)
    ensures d == Same <==> Exists(fs, target) && Identical(fs, probe, target)
    ensures d == Same ==> Exists(fs, probe) && Stat(fs, probe) == Stat(fs, target)
    ensures Exists(fs, target) && !Exists(fs, probe) ==> d == (if Confirmed(answers) then Overwrite else Decline)
  {
    if !Exists(fs, target) then Absent
    else if Identical(fs, probe, target) then Same
    else if Confirmed(answers) then Overwrite
    else Decline
  }

  /** Whether a decision asked the operator. */
  predicate Prompted(d: Decision)
  {
    d == Overwrite || d == Decline
  }

  // ---------------------------------------------------------------------
  // process_file (bootstrap.rb:59-75)

  /** `process_file(src, target)`: render and write an `.erb` source, symlink anything else. */
  function Materialized(w: World, env: Env, src: Path, target: Path): (World, Status)
  {
    if IsErb(src) then
      var w1 := w.(log := w.log + [Generating(target)]);
      match ReadFile(w1.fs, src)
      case Err(e) => (w1, Aborted(Io(e)))
      case Ok(template) =>
        match env.erb(template)
        case None => (w1, Aborted(TemplateError(src)))
        case Some(rendered) =>
          match WriteFile(w1.fs, target, rendered)
          case Err(e) => (w1, Aborted(Io(e)))
          case Ok(fs') => (w1.(fs := fs'), Done)
    else
      var w1 := w.(log := w.log + [Symlinking(target, src)]);
      match Symlink(w1.fs, src, target)
      case Err(e) => (w1, Aborted(Io(e)))
      case Ok(fs') => (w1.(fs := fs'), Done)
  }

  // ---------------------------------------------------------------------
  // One iteration of the loop in install (bootstrap.rb:21-46)

  /** What lines 25-29 print: the `mkdir -p` line when `f` holds a '/', then the announcement. */
  function PreparedEvents(env: Env, f: Path): seq<Event>
  {
    (if '/' in f then [MakingDirs(DotPath(env.home, DirName(f)))] else [])
      + [Processing(f, TargetPath(env.home, f))]
  }

  /** Lines 25-29: `mkdir -p` of the target's directory when `f` holds a '/', then the announcement. */
  function Prepared(w: World, env: Env, f: Path): World
  {
    World(
      if '/' in f then MkdirP(w.fs, MkdirTargets(env.home, f)) else w.fs,
      w.answers,
      w.log + PreparedEvents(env, f))
  }

  /**
   * Lines 30-45 after the target is known: `probe` is the name handed to
   * `File.identical?`, `src` the absolute source handed to `process_file`.
   */
  function Settled(w: World, env: Env, src: Path, probe: Path, target: Path): (World, Status)
  {
    match Decide(w.fs, probe, target, w.answers)
    case Absent => Materialized(w, env, src, target)
    case Same => Materialized(w.(log := w.log + [FilesIdentical]), env, src, target)
    case Decline => (World(w.fs, AfterPrompt(w.answers), w.log + [Skipping(target)]), Skipped)
    case Overwrite =>
      var w1 := World(w.fs, AfterPrompt(w.answers), w.log + [Removing(target)]);
      match Unlink(w1.fs, target)
      case Err(e) => (w1, Aborted(Io(e)))
      case Ok(fs') => Materialized(w1.(fs := fs'), env, src, target)
  }

  /** The body of `files.each do |src_filename| ... end` for one entry. */
  function EntryStep(w: World, env: Env, srcFilename: Path): (World, Status)
  {
    match AfterFirstSlash(srcFilename)
    case None => (w, Aborted(NilRelative(srcFilename)))
    case Some(f) =>
      Settled(Prepared(w, env, f), env, AbsolutePath(env.cwd, srcFilename), AbsolutePath(env.cwd, f), TargetPath(env.home, f))
  }

  /** The loop over `files`, in order; an exception ends it at the entry that raised. */
  function Run(w: World, env: Env, files: seq<Path>): (World, Outcome)
    decreases |files|, 0
  {
    if files == [] then (w, Completed)
    else Proceed(EntryStep(w, env, files[0]), env, files[0], files[1..])
  }

  /** The loop once entry `f` has given `step`: an exception ends it, otherwise it goes on with `rest`. */
  function Proceed(step: (World, Status), env: Env, f: Path, rest: seq<Path>): (World, Outcome)
    decreases |rest|, 1
  {
    if step.1.Aborted? then (step.0, Stopped(f, step.1.failure))
    else Run(step.0, env, rest)
  }

  /** `install` from line 15 on: select, list, then run the loop. */
  function InstallRun(w: World, env: Env, globbed: seq<Path>): (World, Outcome)
  {
    var files := SelectedFiles(globbed, w.fs, env.cwd);
    Run(w.(log := w.log + [Listing(files)]), env, files)
  }

  // ---------------------------------------------------------------------
  // The same steps on mutable state

  /** The machine the script runs on: its filesystem, its operator and its output. */
  class Machine {
    var fs: FileSystem
    /** The answers the operator will still give, in order. */
    var answers: seq<bool>
    var log: seq<Event>
    const env: Env

    constructor (fs0: FileSystem, script: seq<bool>, env: Env)
      ensures State() == World(fs0, script, []) && this.env == env
    {
      fs, answers, log := fs0, script, [];
      this.env := env;
    }

    function State(): World
      reads this
    {
      World(fs, answers, log)
    }

    /** `Ask.confirm(..., default: false)` answered from the script. */
    method Confirm() returns (yes: bool)
      modifies this`answers
      ensures yes == Confirmed(old(answers)) && answers == AfterPrompt(old(answers))
    {
      if answers == [] {
        yes := false;
      } else {
        yes := answers[0];
        answers := answers[1..];
      }
    }

    /** `get_files_to_process`: subtract the excluded names, then reject directories in place. */
    method GetFilesToProcess(globbed: seq<Path>) returns (files: seq<Path>)
      ensures files == SelectedFiles(globbed, fs, env.cwd)
      ensures forall x :: x in files <==> x in globbed && x !in Excluded && !IsDirectory(fs, AbsolutePath(env.cwd, x))
    {
      var all := Without(globbed, Excluded);
      var cur, cwd := fs, env.cwd;
      var kept: seq<Path> := [];
      var i := 0;
      while i < |all|
        invariant 0 <= i <= |all|
        invariant kept == NonDirectories(all[..i], cur, cwd)
      {
        NonDirectoriesSnoc(all, i, cur, cwd);
        if !IsDirectory(cur, AbsolutePath(cwd, all[i])) {
          kept := kept + [all[i]];
        }
        i := i + 1;
      }
      assert all[..i] == all;
      files := kept;
    }

    /** `process_file(f, target_filename)`. */
    method ProcessFile(f: Path, targetFilename: Path) returns (st: Status)
      modifies this`fs, this`log
      ensures (State(), st) == Materialized(old(State()), env, f, targetFilename)
    {
      if IsErb(f) {
        log := log + [Generating(targetFilename)];
        var template := ReadFile(fs, f);
        if template.Err? {
          return Aborted(Io(template.error));
        }
        var rendered := env.erb(template.value);
        if rendered.None? {
          return Aborted(TemplateError(f));
        }
        var written := WriteFile(fs, targetFilename, rendered.value);
        if written.Err? {
          return Aborted(Io(written.error));
        }
        fs := written.value;
      } else {
        log := log + [Symlinking(targetFilename, f)];
        var linked := Symlink(fs, f, targetFilename);
        if linked.Err? {
          return Aborted(Io(linked.error));
        }
        fs := linked.value;
      }
      st := Done;
    }

    /** One pass of the loop body of `install` for `srcFilename`. */
    method ProcessEntry(srcFilename: Path) returns (st: Status)
      modifies this
      ensures (State(), st) == EntryStep(old(State()), env, srcFilename)
    {
      var rel := AfterFirstSlash(srcFilename);
      if rel.None? {
        return Aborted(NilRelative(srcFilename));
      }
      var f := rel.value;
      var srcFullname := AbsolutePath(env.cwd, srcFilename);
      var targetFilename := PrepareEntry(f);
      st := SettleConflict(srcFullname, AbsolutePath(env.cwd, f), targetFilename);
    }

    /** Lines 25-29: make the target's directory when `f` holds a '/', then announce the entry. */
    method PrepareEntry(f: Path) returns (targetFilename: Path)
      modifies this
      ensures targetFilename == TargetPath(env.home, f)
      ensures State() == Prepared(old(State()), env, f)
    {
      ghost var w0 := State();
      if '/' in f {
        log := log + [MakingDirs(DotPath(env.home, DirName(f)))];
        fs := MkdirP(fs, MkdirTargets(env.home, f));
      }
      targetFilename := TargetPath(env.home, f);
      log := log + [Processing(f, targetFilename)];
      assert log == w0.log + PreparedEvents(env, f);
      assert fs == Prepared(w0, env, f).fs;
    }

    /** Lines 30-45: compare, ask, remove or skip, then `process_file`. */
    method SettleConflict(srcFullname: Path, probe: Path, targetFilename: Path) returns (st: Status)
      modifies this
      ensures (State(), st) == Settled(old(State()), env, srcFullname, probe, targetFilename)
    {
      if Exists(fs, targetFilename) {
        if Identical(fs, probe, targetFilename) {
          log := log + [FilesIdentical];
        } else {
          var shouldOverwrite := Confirm();
          if shouldOverwrite {
            log := log + [Removing(targetFilename)];
            var removed := Unlink(fs, targetFilename);
            if removed.Err? {
              return Aborted(Io(removed.error));
            }
            fs := removed.value;
          } else {
            log := log + [Skipping(targetFilename)];
            return Skipped;
          }
        }
      }
      st := ProcessFile(srcFullname, targetFilename);
    }

    /** `install` from line 15 on: the selection, its listing, then every entry in order. */
    method Install(globbed: seq<Path>) returns (outcome: Outcome)
      modifies this
      ensures (State(), outcome) == InstallRun(old(State()), env, globbed)
    {
      var files := GetFilesToProcess(globbed);
      log := log + [Listing(files)];
      var i := 0;
      while i < |files|
        invariant 0 <= i <= |files|
        invariant Run(State(), env, files[i..]) == InstallRun(old(State()), env, globbed)
      {
        var st := ProcessEntry(files[i]);
        assert files[i..][1..] == files[i + 1..];
        if st.Aborted? {
          return Stopped(files[i], st.failure);
        }
        i := i + 1;
      }
      outcome := Completed;
    }
  }
}
