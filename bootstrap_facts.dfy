/**
 * What bootstrap.rb's materializer guarantees, and what it does not, stated
 * over the specification functions of module Bootstrap.
 */
module BootstrapFacts {
  import opened Wrappers
  import opened Paths
  import opened Fs
  import opened Bootstrap

  // ---------------------------------------------------------------------
  // Selection (bootstrap.rb:49-53)

  lemma {:induction false} WithoutDistributes(a: seq<Path>, b: seq<Path>, ex: seq<Path>)
    ensures Without(a + b, ex) == Without(a, ex) + Without(b, ex)
    decreases |a|
  {
    if a == [] {
      assert a + b == b;
    } else {
      assert (a + b)[1..] == a[1..] + b;
      WithoutDistributes(a[1..], b, ex);
    }
  }

  lemma {:induction false} NonDirectoriesDistributes(a: seq<Path>, b: seq<Path>, fs: FileSystem, cwd: Path)
    ensures NonDirectories(a + b, fs, cwd) == NonDirectories(a, fs, cwd) + NonDirectories(b, fs, cwd)
    decreases |b|
  {
    if b == [] {
      assert a + b == a;
    } else {
      var b' := b[..|b| - 1];
      assert (a + b)[..|a + b| - 1] == a + b';
      NonDirectoriesDistributes(a, b', fs, cwd);
    }
  }

  /** The selection distributes over concatenation: it keeps glob order. */
  lemma SelectionKeepsGlobOrder(a: seq<Path>, b: seq<Path>, fs: FileSystem, cwd: Path)
    ensures SelectedFiles(a + b, fs, cwd) == SelectedFiles(a, fs, cwd) + SelectedFiles(b, fs, cwd)
  {
    WithoutDistributes(a, b, Excluded);
    NonDirectoriesDistributes(Without(a, Excluded), Without(b, Excluded), fs, cwd);
  }

  /** A single entry is kept exactly when it is neither an excluded name nor a directory. */
  lemma SelectionOfOne(x: Path, fs: FileSystem, cwd: Path)
    ensures SelectedFiles([x], fs, cwd) ==
      (if x in Excluded || IsDirectory(fs, AbsolutePath(cwd, x)) then [] else [x])
  {
    assert Without([x], Excluded) == (if x in Excluded then [] else [x]) + Without([], Excluded);
    var kept := Without([x], Excluded);
    if kept == [x] {
      assert kept[..|kept| - 1] == [] && kept[|kept| - 1] == x;
      assert NonDirectories(kept, fs, cwd) ==
        NonDirectories([], fs, cwd) + (if IsDirectory(fs, AbsolutePath(cwd, x)) then [] else [x]);
    }
  }

  /** No excluded name starts with "dotfiles/". */
  lemma ExcludedNamesAreBare(x: Path)
    requires "dotfiles/" <= x
    ensures x !in Excluded
  {
    assert x[..9] == "dotfiles/";
    assert x[0] == 'd' && x[1] == 'o';
  }

  /**
   * `Dir.glob("dotfiles/**/*")` yields names that all begin "dotfiles/", so
   * subtracting the bare names of line 50 removes nothing.
   */
  lemma {:induction false} ExclusionRemovesNothingFromGlob(globbed: seq<Path>)
    requires forall k :: 0 <= k < |globbed| ==> "dotfiles/" <= globbed[k]
    ensures Without(globbed, Excluded) == globbed
    decreases |globbed|
  {
    if globbed != [] {
      ExcludedNamesAreBare(globbed[0]);
      ExclusionRemovesNothingFromGlob(globbed[1..]);
      assert globbed == [globbed[0]] + globbed[1..];
    }
  }

  // ---------------------------------------------------------------------
  // process_file (bootstrap.rb:59-75)

  /** `process_file` prints one line and never touches the answers. */
  lemma MaterializedTrace(w: World, env: Env, src: Path, target: Path)
    ensures Materialized(w, env, src, target).0.answers == w.answers
    ensures Materialized(w, env, src, target).0.log ==
      w.log + [if IsErb(src) then Generating(target) else Symlinking(target, src)]
  {
  }

  /**
   * An `.erb` source yields the rendered template at the target and creates
   * no link; any other source yields a link to its absolute path and writes
   * no file; a failure changes nothing.
   */
  lemma MaterializedKinds(w: World, env: Env, src: Path, target: Path)
    ensures var (w', st) := Materialized(w, env, src, target);
      && (IsErb(src) ==> forall k :: k in w'.fs && w'.fs[k].Link? ==> k in w.fs && w.fs[k] == w'.fs[k])
      && (!IsErb(src) ==> forall k :: k in w'.fs && !w'.fs[k].Link? ==> k in w.fs && w.fs[k] == w'.fs[k])
      && (st.Aborted? <==> st != Done)
      && (st != Done ==> w'.fs == w.fs)
      && (st == Done && IsErb(src) ==>
            && ReadFile(w.fs, src).Ok?
            && env.erb(ReadFile(w.fs, src).value).Some?
            && Stat(w'.fs, target) == Some(File(env.erb(ReadFile(w.fs, src).value).value)))
      && (!IsErb(src) && target !in w.fs ==>
            (st == Done <==> IsDirectory(w.fs, ParentOf(target))))
      && (st == Done && !IsErb(src) && target !in w.fs ==> w'.fs == w.fs[target := Link(src)])
      && (st == Done && !IsErb(src) && IsDirectory(w.fs, target) ==>
            w'.fs == w.fs[Physical(w.fs, target).value + "/" + BaseName(src) := Link(src)])
  {
  }

  // ---------------------------------------------------------------------
  // One entry (bootstrap.rb:21-46)

  /**
   * Lines 25-26: parent directories are made only for a name holding a
   * '/'; nothing that existed changes and only directories on the way to
   * `$HOME/.dirname(f)` appear.
   */
  lemma PreparedOnlyAddsDirectories(w: World, env: Env, f: Path)
    ensures var w1 := Prepared(w, env, f);
      && w1.answers == w.answers
      && ('/' !in f ==> w1.fs == w.fs)
      && (forall p :: p in w.fs ==> p in w1.fs && w1.fs[p] == w.fs[p])
      && (forall p :: p in w1.fs && p !in w.fs ==> '/' in f && p in MkdirTargets(env.home, f) && w1.fs[p] == Dir)
      && ('/' in f && (forall k :: 0 <= k < |MkdirTargets(env.home, f)| ==>
                          MkdirTargets(env.home, f)[k] !in w.fs || w.fs[MkdirTargets(env.home, f)[k]] == Dir) ==>
            DotPath(env.home, DirName(f)) in w1.fs && w1.fs[DotPath(env.home, DirName(f))] == Dir)
  {
    var w1 := Prepared(w, env, f);
    if '/' in f {
      var ds := MkdirTargets(env.home, f);
      assert ds[|ds| - 1] == DotPath(env.home, DirName(f));
    }
  }

  /** The loop body splits at line 30: what lines 22-29 do, then the conflict handling. */
  lemma EntryStepUnfold(w: World, env: Env, src: Path, f: Path)
    requires AfterFirstSlash(src) == Some(f)
    ensures EntryStep(w, env, src) ==
      Settled(Prepared(w, env, f), env, AbsolutePath(env.cwd, src), AbsolutePath(env.cwd, f), TargetPath(env.home, f))
  {
  }

  /** Lines 30 and 45: a target that does not exist is processed and no answer is used. */
  lemma AbsentTargetIsProcessedUnprompted(w: World, env: Env, src: Path, f: Path)
    requires AfterFirstSlash(src) == Some(f)
    requires !Exists(Prepared(w, env, f).fs, TargetPath(env.home, f))
    ensures EntryStep(w, env, src) ==
      Materialized(Prepared(w, env, f), env, AbsolutePath(env.cwd, src), TargetPath(env.home, f))
    ensures EntryStep(w, env, src).0.answers == w.answers
  {
    MaterializedTrace(Prepared(w, env, f), env, AbsolutePath(env.cwd, src), TargetPath(env.home, f));
  }

  /**
   * Lines 31-32 and 45: an identical target uses no answer, removes
   * nothing and still reaches `process_file`; for a source that is not a
   * template, `ln_s` then raises because the target is there.
   */
  lemma IdenticalTargetStillProcessed(w: World, env: Env, src: Path, f: Path)
    requires AfterFirstSlash(src) == Some(f)
    requires Identical(Prepared(w, env, f).fs, AbsolutePath(env.cwd, f), TargetPath(env.home, f))
    ensures var w1 := Prepared(w, env, f);
      EntryStep(w, env, src) ==
        Materialized(w1.(log := w1.log + [FilesIdentical]), env, AbsolutePath(env.cwd, src), TargetPath(env.home, f))
    ensures EntryStep(w, env, src).0.answers == w.answers
    ensures !IsErb(f) && !IsDirectory(Prepared(w, env, f).fs, TargetPath(env.home, f)) ==>
      EntryStep(w, env, src).1 == Aborted(Io(IoError(FileExists, TargetPath(env.home, f))))
  {
    var w1 := Prepared(w, env, f);
    IsErbAcrossNames(env.cwd, src, f);
    MaterializedTrace(w1.(log := w1.log + [FilesIdentical]), env, AbsolutePath(env.cwd, src), TargetPath(env.home, f));
  }

  /**
   * Lines 34 and 38-41: a "no" uses one answer and leaves everything that
   * existed as it was (only parent directories may have been made); the
   * loop goes on with the next entry.
   */
  lemma DeclinedTargetIsLeftAlone(w: World, env: Env, src: Path, f: Path)
    requires AfterFirstSlash(src) == Some(f)
    requires Exists(Prepared(w, env, f).fs, TargetPath(env.home, f))
    requires !Identical(Prepared(w, env, f).fs, AbsolutePath(env.cwd, f), TargetPath(env.home, f))
    requires !Confirmed(w.answers)
    ensures var (w', st) := EntryStep(w, env, src);
      && st == Skipped
      && w'.fs == Prepared(w, env, f).fs
      && (forall p :: p in w.fs ==> p in w'.fs && w'.fs[p] == w.fs[p])
      && (forall p :: p in w'.fs && p !in w.fs ==> p in MkdirTargets(env.home, f) && w'.fs[p] == Dir)
      && w'.answers == AfterPrompt(w.answers)
      && w'.log == Prepared(w, env, f).log + [Skipping(TargetPath(env.home, f))]
  {
    var w1 := Prepared(w, env, f);
    var t := TargetPath(env.home, f);
    EntryStepUnfold(w, env, src, f);
    PreparedOnlyAddsDirectories(w, env, f);
    assert Decide(w1.fs, AbsolutePath(env.cwd, f), t, w1.answers) == Decline;
    assert EntryStep(w, env, src) == (World(w1.fs, AfterPrompt(w.answers), w1.log + [Skipping(t)]), Skipped);
  }

  /**
   * Lines 34-37 and 45: a "yes" uses one answer and removes the target
   * before `process_file` runs; a directory cannot be removed and raises.
   * When processing succeeds the target holds the link to the source, or a
   * file with the rendered template.
   */
  lemma ConfirmedTargetIsReplaced(w: World, env: Env, src: Path, f: Path)
    requires AfterFirstSlash(src) == Some(f)
    requires Exists(Prepared(w, env, f).fs, TargetPath(env.home, f))
    requires !Identical(Prepared(w, env, f).fs, AbsolutePath(env.cwd, f), TargetPath(env.home, f))
    requires Confirmed(w.answers)
    ensures var (w', st) := EntryStep(w, env, src);
      var w1 := Prepared(w, env, f);
      var t := TargetPath(env.home, f);
      var abs := AbsolutePath(env.cwd, src);
      && t in w1.fs
      && w'.answers == AfterPrompt(w.answers)
      && (w1.fs[t].Dir? ==> st == Aborted(Io(IoError(IsADirectory, t))) && w'.fs == w1.fs)
      && (!w1.fs[t].Dir? ==>
            EntryStep(w, env, src) ==
              Materialized(World(w1.fs - {t}, AfterPrompt(w.answers), w1.log + [Removing(t)]), env, abs, t))
      && (st == Done && !IsErb(f) ==> w'.fs == (w1.fs - {t})[t := Link(abs)])
      && (st == Done && IsErb(f) ==>
            && ReadFile(w1.fs - {t}, abs).Ok?
            && env.erb(ReadFile(w1.fs - {t}, abs).value).Some?
            && t in w'.fs && w'.fs[t] == File(env.erb(ReadFile(w1.fs - {t}, abs).value).value))
  {
    var w1 := Prepared(w, env, f);
    var t := TargetPath(env.home, f);
    var abs := AbsolutePath(env.cwd, src);
    IsErbAcrossNames(env.cwd, src, f);
    EntryStepUnfold(w, env, src, f);
    PreparedOnlyAddsDirectories(w, env, f);
    assert Decide(w1.fs, AbsolutePath(env.cwd, f), t, w1.answers) == Overwrite;
    if !w1.fs[t].Dir? {
      var w2 := World(w1.fs - {t}, AfterPrompt(w.answers), w1.log + [Removing(t)]);
      MaterializedTrace(w2, env, abs, t);
      MaterializedKinds(w2, env, abs, t);
      var (w', st) := Materialized(w2, env, abs, t);
      if st == Done && IsErb(f) {
        assert Physical(w2.fs, t) == Some(t);
        assert Physical(w'.fs, t) == Some(t);
      }
    }
  }

  /**
   * When the working directory holds nothing at the relative name (the
   * sources live under dotfiles/), `File.identical?` is false and every
   * existing target is put to the operator, however it came to be.
   */
  lemma ExistingTargetIsPromptedWhenProbeMissing(w: World, env: Env, f: Path)
    requires Exists(Prepared(w, env, f).fs, TargetPath(env.home, f))
    requires !Exists(Prepared(w, env, f).fs, AbsolutePath(env.cwd, f))
    ensures var w1 := Prepared(w, env, f);
      Decide(w1.fs, AbsolutePath(env.cwd, f), TargetPath(env.home, f), w1.answers) ==
        if Confirmed(w.answers) then Overwrite else Decline
  {
  }

  // ---------------------------------------------------------------------
  // The loop (bootstrap.rb:21-46)

  /** The relative names the loop announces ("Processing: f => target"), in order. */
  function Visits(log: seq<Event>): seq<Path>
    decreases |log|
  {
    if log == [] then [] else (if log[0].Processing? then [log[0].rel] else []) + Visits(log[1..])
  }

  /** How many prompts a stretch of output records: each prints "Removing" or "Skipping". */
  function Prompts(log: seq<Event>): nat
    decreases |log|
  {
    if log == [] then 0 else (if log[0].Removing? || log[0].Skipping? then 1 else 0) + Prompts(log[1..])
  }

  /** `split("/", 2)[1]` of every entry that has it. */
  function RelNames(files: seq<Path>): seq<Path>
    decreases |files|
  {
    if files == [] then []
    else (match AfterFirstSlash(files[0]) case Some(f) => [f] case None => []) + RelNames(files[1..])
  }

  lemma {:induction false} VisitsAppend(a: seq<Event>, b: seq<Event>)
    ensures Visits(a + b) == Visits(a) + Visits(b)
    decreases |a|
  {
    if a == [] {
      assert a + b == b;
    } else {
      assert (a + b)[0] == a[0];
      assert (a + b)[1..] == a[1..] + b;
      VisitsAppend(a[1..], b);
    }
  }

  lemma {:induction false} PromptsAppend(a: seq<Event>, b: seq<Event>)
    ensures Prompts(a + b) == Prompts(a) + Prompts(b)
    decreases |a|
  {
    if a == [] {
      assert a + b == b;
    } else {
      assert (a + b)[0] == a[0];
      assert (a + b)[1..] == a[1..] + b;
      PromptsAppend(a[1..], b);
    }
  }

  lemma DropDrop(s: seq<bool>, a: nat, b: nat)
    ensures Drop(Drop(s, a), b) == Drop(s, a + b)
  {
  }

  /** Lines 30-45 print no announcement and use exactly one answer when they prompt. */
  lemma SettledTrace(w: World, env: Env, src: Path, probe: Path, target: Path)
    ensures var (w', st) := Settled(w, env, src, probe, target);
      var d := Decide(w.fs, probe, target, w.answers);
      && |w.log| <= |w'.log| && w'.log[..|w.log|] == w.log
      && Visits(w'.log[|w.log|..]) == []
      && Prompts(w'.log[|w.log|..]) == (if Prompted(d) then 1 else 0)
      && w'.answers == (if Prompted(d) then AfterPrompt(w.answers) else w.answers)
  {
    var (w', st) := Settled(w, env, src, probe, target);
    var m := if IsErb(src) then Generating(target) else Symlinking(target, src);
    match Decide(w.fs, probe, target, w.answers)
    case Absent =>
      MaterializedTrace(w, env, src, target);
      assert w'.log[|w.log|..] == [m];
    case Same =>
      MaterializedTrace(w.(log := w.log + [FilesIdentical]), env, src, target);
      assert w'.log[|w.log|..] == [FilesIdentical, m];
    case Decline =>
      assert w'.log[|w.log|..] == [Skipping(target)];
    case Overwrite =>
      var w1 := World(w.fs, AfterPrompt(w.answers), w.log + [Removing(target)]);
      match Unlink(w1.fs, target)
      case Err(e) =>
        assert w'.log[|w.log|..] == [Removing(target)];
      case Ok(fs') =>
        MaterializedTrace(w1.(fs := fs'), env, src, target);
        assert w'.log[|w.log|..] == [Removing(target), m];
  }

  lemma PreparedEventsTrace(env: Env, f: Path)
    ensures Visits(PreparedEvents(env, f)) == [f]
    ensures Prompts(PreparedEvents(env, f)) == 0
  {
    var e := PreparedEvents(env, f);
    var last := [Processing(f, TargetPath(env.home, f))];
    assert Visits(last) == [f] by { assert last[1..] == []; }
    assert Prompts(last) == 0 by { assert last[1..] == []; }
    if '/' in f {
      assert e[1..] == last;
    }
  }

  /** Lines 25-29 announce the relative name once and use no answer. */
  lemma PreparedTrace(w: World, env: Env, f: Path)
    ensures var w1 := Prepared(w, env, f);
      && w1.answers == w.answers
      && |w.log| <= |w1.log| && w1.log[..|w.log|] == w.log
      && Visits(w1.log[|w.log|..]) == [f]
      && Prompts(w1.log[|w.log|..]) == 0
  {
    var w1 := Prepared(w, env, f);
    PreparedEventsTrace(env, f);
    assert w1.log[|w.log|..] == PreparedEvents(env, f);
  }

  /** Two stretches of output in a row: announcements add up, answers are dropped in turn. */
  lemma ComposeTraces(l0: seq<Event>, l1: seq<Event>, l2: seq<Event>, a0: seq<bool>, a1: seq<bool>, a2: seq<bool>)
    requires |l0| <= |l1| && l1[..|l0|] == l0
    requires |l1| <= |l2| && l2[..|l1|] == l1
    requires a1 == Drop(a0, Prompts(l1[|l0|..]))
    requires a2 == Drop(a1, Prompts(l2[|l1|..]))
    ensures |l0| <= |l2| && l2[..|l0|] == l0
    ensures a2 == Drop(a0, Prompts(l2[|l0|..]))
    ensures Visits(l2[|l0|..]) == Visits(l1[|l0|..]) + Visits(l2[|l1|..])
    ensures Prompts(l2[|l0|..]) == Prompts(l1[|l0|..]) + Prompts(l2[|l1|..])
  {
    assert l2[|l0|..] == l1[|l0|..] + l2[|l1|..];
    VisitsAppend(l1[|l0|..], l2[|l1|..]);
    PromptsAppend(l1[|l0|..], l2[|l1|..]);
    DropDrop(a0, Prompts(l1[|l0|..]), Prompts(l2[|l1|..]));
  }

  /** For an entry that has a relative name `f`. */
  lemma EntryStepTraceOf(w: World, env: Env, src: Path, f: Path)
    requires AfterFirstSlash(src) == Some(f)
    ensures var w' := EntryStep(w, env, src).0;
      && |w.log| <= |w'.log| && w'.log[..|w.log|] == w.log
      && Visits(w'.log[|w.log|..]) == [f]
      && Prompts(w'.log[|w.log|..]) <= 1
      && w'.answers == Drop(w.answers, Prompts(w'.log[|w.log|..]))
  {
    var w1 := Prepared(w, env, f);
    var t := TargetPath(env.home, f);
    var r := Settled(w1, env, AbsolutePath(env.cwd, src), AbsolutePath(env.cwd, f), t);
    EntryStepUnfold(w, env, src, f);
    PreparedTrace(w, env, f);
    SettledTrace(w1, env, AbsolutePath(env.cwd, src), AbsolutePath(env.cwd, f), t);
    var p := Prompts(r.0.log[|w1.log|..]);
    assert r.0.answers == Drop(w1.answers, p) by {
      assert Drop(w1.answers, 0) == w1.answers;
      assert Drop(w1.answers, 1) == AfterPrompt(w1.answers);
    }
    assert w1.answers == Drop(w.answers, 0);
    ComposeTraces(w.log, w1.log, r.0.log, w.answers, w1.answers, r.0.answers);
  }

  /**
   * One entry announces its relative name once (none when `split` gives
   * nil) and uses one answer for each prompt, at most one.
   */
  lemma EntryStepTrace(w: World, env: Env, src: Path)
    ensures var w' := EntryStep(w, env, src).0;
      && |w.log| <= |w'.log| && w'.log[..|w.log|] == w.log
      && Visits(w'.log[|w.log|..]) == (match AfterFirstSlash(src) case Some(f) => [f] case None => [])
      && Prompts(w'.log[|w.log|..]) <= 1
      && w'.answers == Drop(w.answers, Prompts(w'.log[|w.log|..]))
  {
    match AfterFirstSlash(src)
    case None =>
      assert EntryStep(w, env, src).0 == w;
      assert w.log[|w.log|..] == [];
    case Some(f) =>
      EntryStepTraceOf(w, env, src, f);
  }

  /**
   * A run announces every entry once, in list order, and the operator's
   * answers are used one per prompt, in order; the output only grows.
   */
  lemma {:induction false} RunTrace(w: World, env: Env, files: seq<Path>)
    ensures var w' := Run(w, env, files).0;
      && |w.log| <= |w'.log| && w'.log[..|w.log|] == w.log
      && w'.answers == Drop(w.answers, Prompts(w'.log[|w.log|..]))
    ensures Run(w, env, files).1 == Completed ==>
      Visits(Run(w, env, files).0.log[|w.log|..]) == RelNames(files)
    decreases |files|
  {
    if files == [] {
      assert w.log[|w.log|..] == [];
    } else {
      var r1 := EntryStep(w, env, files[0]);
      EntryStepTrace(w, env, files[0]);
      if !r1.1.Aborted? {
        assert AfterFirstSlash(files[0]).Some?;
        var r := Run(r1.0, env, files[1..]);
        assert Run(w, env, files) == r;
        RunTrace(r1.0, env, files[1..]);
        ComposeTraces(w.log, r1.0.log, r.0.log, w.answers, r1.0.answers, r.0.answers);
      } else {
        assert Run(w, env, files).0 == r1.0;
        assert w.answers == Drop(w.answers, 0);
      }
    }
  }

  /** Entries are handled strictly one after another: a completed prefix hands its world to the rest. */
  lemma {:induction false} RunAppend(w: World, env: Env, a: seq<Path>, b: seq<Path>)
    requires Run(w, env, a).1 == Completed
    ensures Run(w, env, a + b) == Run(Run(w, env, a).0, env, b)
    decreases |a|, 0
  {
    if a == [] {
      assert a + b == b;
    } else {
      assert (a + b)[0] == a[0];
      assert (a + b)[1..] == a[1..] + b;
      var step := EntryStep(w, env, a[0]);
      assert Run(w, env, a) == Proceed(step, env, a[0], a[1..]);
      assert Run(w, env, a + b) == Proceed(step, env, a[0], a[1..] + b);
      ProceedAppend(step, env, a[0], a[1..], b);
    }
  }

  lemma {:induction false} ProceedAppend(step: (World, Status), env: Env, f: Path, rest: seq<Path>, b: seq<Path>)
    requires Proceed(step, env, f, rest).1 == Completed
    ensures Proceed(step, env, f, rest + b) == Run(Proceed(step, env, f, rest).0, env, b)
    decreases |rest|, 1
  {
    RunAppend(step.0, env, rest, b);
  }

  // ---------------------------------------------------------------------
  // Re-running is not prompt-free

  /**
   * A top-level source that is not a template, run against a home without
   * its target, is linked; running the entry again then prompts, because
   * line 31 compares the target with the relative name in the working
   * directory, where nothing is found, rather than with the source.
   */
  lemma LinkedEntryIsAskedAgain(w: World, env: Env, src: Path, f: Path, answers: seq<bool>)
    requires AfterFirstSlash(src) == Some(f) && '/' !in f && !IsErb(f)
    requires TargetPath(env.home, f) !in w.fs
    requires IsDirectory(w.fs, ParentOf(TargetPath(env.home, f)))
    requires AbsolutePath(env.cwd, src) in w.fs && w.fs[AbsolutePath(env.cwd, src)].File?
    requires AbsolutePath(env.cwd, f) !in w.fs && AbsolutePath(env.cwd, f) != TargetPath(env.home, f)
    ensures var (w1, st1) := EntryStep(w, env, src);
      && st1 == Done
      && w1.fs == w.fs[TargetPath(env.home, f) := Link(AbsolutePath(env.cwd, src))]
      && w1.answers == w.answers
      && var (w2, st2) := EntryStep(w1.(answers := answers), env, src);
         && w2.answers == AfterPrompt(answers)
         && (st2 == Skipped <==> !Confirmed(answers))
  {
    var t := TargetPath(env.home, f);
    var abs := AbsolutePath(env.cwd, src);
    var probe := AbsolutePath(env.cwd, f);
    IsErbAcrossNames(env.cwd, src, f);
    // first pass: absent target, linked
    var p0 := Prepared(w, env, f);
    assert p0.fs == w.fs;
    AbsentTargetIsProcessedUnprompted(w, env, src, f);
    MaterializedTrace(p0, env, abs, t);
    MaterializedKinds(p0, env, abs, t);
    var (w1, st1) := EntryStep(w, env, src);
    assert st1 == Done;
    // second pass: the link exists, the probe does not
    var v := w1.(answers := answers);
    var p1 := Prepared(v, env, f);
    assert p1.fs == w1.fs && p1.answers == answers;
    assert Resolve(w1.fs, abs, MaxSymlinks - 1) == Some(abs);
    assert Exists(w1.fs, t);
    assert !Exists(w1.fs, probe);
    if Confirmed(answers) {
      ConfirmedTargetIsReplaced(v, env, src, f);
      var (w2, st2) := EntryStep(v, env, src);
      if !w1.fs[t].Dir? {
        var w3 := World(w1.fs - {t}, AfterPrompt(answers), p1.log + [Removing(t)]);
        MaterializedKinds(w3, env, abs, t);
      }
    } else {
      DeclinedTargetIsLeftAlone(v, env, src, f);
    }
  }
}
