# Dotfile materializer of `bootstrap.rb`, modelled in Dafny

`bootstrap.rb` provisions a machine and then materializes the files under
`dotfiles/` into the home directory. This project models that materializer:

- **Selection** (`get_files_to_process`): the glob result minus six bare
  names, with directories rejected in place.
- **Path mapping** (`install`, lines 22-28): the leading `dotfiles/`
  segment is dropped with `split("/", 2)[1]`. One `.erb` is removed with
  `sub(/\.erb$/, '')`. The result is prefixed with `$HOME/.`.
- **Per-entry decision** (`install`, lines 30-45). An absent target is
  processed. An identical target prints a line and still falls through to
  `process_file`. Otherwise the operator is asked yes/no: "yes" removes the
  target and processes the entry, "no" skips to the next entry.
- **Processing** (`process_file`): an `.erb` source is rendered and written
  to the target. Any other source gets a symbolic link from the target to
  its absolute path.

Layout:

- `wrappers.dfy`: `Option` and `Result`.
- `paths.dfy`, module `Paths`: the string operations Ruby performs on names.
  It also holds the lemmas about target names.
- `fs.dfy`, module `Fs`: an abstract filesystem. It is a map from absolute
  path to `File`, `Link` or `Dir`. Symbolic links on the last component are
  followed, at most 40 of them. The module also models the Ruby calls
  `File.exist?`, `File.directory?`, `File.identical?`, `File.read`,
  `File.open(…, 'w')`, `FileUtils.rm`, `FileUtils.ln_s` and `mkdir -p`.
  Each of these fails with the nearest errno among the four the model
  knows (see "Left out"). For example, a path through a regular file gives
  ENOENT where Ruby raises ENOTDIR.
- `bootstrap.dfy`, module `Bootstrap`: one specification function per step
  over a `World`, which holds the filesystem, the operator's remaining
  answers and the printed lines. The class `Machine` performs the same
  steps statement by statement on mutable fields. Its methods are proved
  equal to the functions.
- `bootstrap_facts.dfy`, module `BootstrapFacts`: the properties.

The environment is a parameter. `Env` carries `$HOME`, the working directory
that relative names resolve against, and ERB rendering with `DEFAULTS`
bound. Rendering is an uninterpreted function that returns `None` where the
template raises. The operator is a scripted list of yes/no answers. As with
`default: false` on line 34, an exhausted script answers "no". Nothing in
`install` rescues an exception, so the first failure stops the loop. The
model returns `Stopped(entry, failure)` in that case.

## Behaviour of the code worth knowing

- The prompt offers only yes and no. There is no sticky "always" answer and
  no whole-folder linking.
- The excluded names are bare (`README.md`, …). They are subtracted from
  names that all begin with `dotfiles/`, so they remove nothing
  (`ExclusionRemovesNothingFromGlob`). The glob order is kept and nothing
  is sorted.
- An identical target is not skipped. Control reaches `process_file`. For a
  non-template source whose target is not a directory, `ln_s` then raises
  because the target exists, and the run stops
  (`IdenticalTargetStillProcessed`). When the target is a directory, or a
  link to one, `ln_s` places the link inside it instead.
- `File.identical?` compares the target with the stripped relative name in
  the working directory, not with the source under `dotfiles/`. A second
  run therefore asks again about every link the first run made
  (`LinkedEntryIsAskedAgain`), so re-running is not prompt-free.
- The name mapping is not injective: `vimrc` and `vimrc.erb` share a target
  (`TemplateAndPlainCollide`). It is injective only among names of the same
  kind (`TargetPathInjective`).
- No error is recovered per entry: any exception ends the run.
- Ruby's `$` also matches before a newline. A `.erb` that ends a line inside
  a name is therefore removed from the target, although `is_erb?` is false
  for that name (`StripErbBeforeNewline`).

## Model

| member | source | states |
|---|---|---|
| `Paths.IsErb` | bootstrap.rb:55-57 | `end_with?(".erb")` holds exactly when the pattern `\.erb$` of line 28 matches at the very end of the name. The partner lemmas are `StripErbPlain` and `IsErbAcrossNames` |
| `Paths.TargetPath` | bootstrap.rb:28 | the target name. It has no contract of its own; `TargetPathShape`, `TemplateAndPlainCollide` and `TargetPathInjective` state its shape and where it is and is not injective |
| `Paths.AbsolutePath` | bootstrap.rb:23 | `File.absolute_path` of a relative name. It has no contract of its own; `IsErbAcrossNames` states that `is_erb?` gives the same answer on it as on the entry |
| `Paths.AfterFirstSlash` | bootstrap.rb:22 | nil exactly when the name holds no '/'; otherwise the result is the suffix after the first '/' and the text before that '/' holds none |
| `Paths.StripErb` | bootstrap.rb:28 | when `\.erb$` never matches, the name is unchanged; otherwise exactly the leftmost ".erb" that ends a line is deleted |
| `Paths.StripErbPlain` | bootstrap.rb:28 | for a name without newlines, the result is the name less a trailing ".erb" when `is_erb?` holds, and the name itself otherwise |
| `Paths.TargetPathShape` | bootstrap.rb:28 | the target is `HOME + "/." + rel`, where rel is the relative name less one trailing ".erb"; appending ".erb" back to the target of a template gives `HOME/.` plus the source name |
| `Paths.StripErbBeforeNewline` | bootstrap.rb:28 | a ".erb" followed by a newline is removed even in the middle of the name |
| `Paths.TemplateAndPlainCollide` | bootstrap.rb:28 | `f` and `f.erb` map to the same target, so the mapping is not injective |
| `Paths.TargetPathInjective` | bootstrap.rb:28 | among newline-free names that are both templates or both not, equal targets mean equal names |
| `Paths.IsErbAcrossNames` | bootstrap.rb:22-23 | `is_erb?` agrees on the glob entry, its stripped relative name and its absolute path, so testing the absolute path on line 63 is the same as testing the entry |
| `Paths.DirName` | bootstrap.rb:25 | for a name with a '/', the result is a proper prefix that ends just before the last '/' |
| `Paths.Ancestry` | bootstrap.rb:26 | the directories `mkdir -p` goes through. It ends with the name itself, and every other element is a prefix of the name that stops just before a '/'. Every such prefix is listed, and the lengths grow strictly, so the outermost comes first |
| `Paths.MkdirTargets` | bootstrap.rb:26 | for a name with a '/': the last directory is `$HOME/.` plus `File.dirname(f)`. Every directory is a leading part of `$HOME/.f` that stops just before a '/' after `$HOME/.`. `$HOME/.p` is listed for every prefix `p` of `f` that ends before a '/'. The lengths grow strictly, so the outermost comes first |
| `Fs.Exists` | bootstrap.rb:30 | `File.exist?` follows links. A missing path does not exist, and neither does a dangling link. Any other non-link entry exists |
| `Fs.IsDirectory` | bootstrap.rb:51 | `File.directory?` follows links. A directory counts, and so does a link to one. A regular file does not. A directory always exists |
| `Fs.Identical` | bootstrap.rb:31 | `File.identical?` holds only when both paths exist and resolve to the same physical path, hence the same node. Two distinct non-link entries are never identical. A link is identical to the entry it points at. A path is identical to itself exactly when it exists |
| `Fs.MkdirP` | bootstrap.rb:26 | existing entries never change; every new entry is a directory from the list; when nothing on the way is a blocking non-directory, every directory in the list exists afterwards |
| `Fs.Unlink` | bootstrap.rb:37 | `FileUtils.rm` succeeds exactly on an existing non-directory; it removes that entry and keeps every other one |
| `Fs.ReadFile` | bootstrap.rb:65 | succeeds with the content of the file the path leads to, and fails when the path leads to no file |
| `Fs.WriteFile` | bootstrap.rb:69-71 | the conditions under which `File.open(…,'w')` succeeds; afterwards the path leads to a file with the text; no link is created and only the physical target changes |
| `Fs.Symlink` | bootstrap.rb:74 | on a non-directory destination, `ln_s` succeeds exactly when nothing is there and the parent directory exists; it adds the link and nothing else; an existing entry raises EEXIST. On a directory destination (or a link to one), a success adds exactly one link to the source, named by the base name of the source inside the directory the destination resolves to. It never writes a file |
| `Fs.ResolveAfterUpdate` | bootstrap.rb:69-71 | replacing a non-link by a non-link leaves every link lookup unchanged, so a written target still leads to the written file |
| `Bootstrap.Without` | bootstrap.rb:50 | Ruby's array difference keeps exactly the elements equal to no excluded name |
| `Bootstrap.NonDirectories` | bootstrap.rb:51 | `reject!` keeps exactly the entries that are not directories |
| `Bootstrap.SelectedFiles` | bootstrap.rb:49-53 | an entry is selected exactly when it was globbed, is not an excluded name and is not a directory. The selection is never longer than the glob result. `SelectionKeepsGlobOrder` states that the order is kept |
| `Bootstrap.Decide` | bootstrap.rb:30-35 | the decision is "absent" exactly when `File.exist?` is false for the target. "Same" holds exactly when the target exists and `File.identical?` holds, that is, when both paths exist and resolve to the same physical path (hence the same node). An existing target whose probe is missing goes to the operator, and the answer picks overwrite or decline |
| `Bootstrap.Prepared` | bootstrap.rb:25-29 | the specification of the steps before the decision: `mkdir -p` of the target's directory when the name holds a '/', then the "Processing" line. `PreparedOnlyAddsDirectories` and `PreparedTrace` state what it does; `Machine.PrepareEntry` is proved to compute it |
| `Bootstrap.Materialized` | bootstrap.rb:59-75 | the specification of `process_file`. `MaterializedKinds` and `MaterializedTrace` state what it does |
| `Bootstrap.Settled` | bootstrap.rb:30-45 | the specification of the conflict handling. `SettledTrace` and the four decision lemmas state what it does |
| `Bootstrap.EntryStep` | bootstrap.rb:21-46 | the specification of one loop iteration. `EntryStepTrace` and the decision lemmas state what it does |
| `Bootstrap.Run` | bootstrap.rb:21-46 | the specification of the loop, with `Proceed` for the step after one entry (stop on an exception, otherwise go on). `RunTrace` and `RunAppend` state what it does |
| `Bootstrap.InstallRun` | bootstrap.rb:15-46 | the specification of `install` after the zsh steps: the selection is listed, then the loop runs. `Machine.Install` is proved to compute it |
| `Bootstrap.Machine.GetFilesToProcess` | bootstrap.rb:49-53 | the loop that rejects directories gives the selection; an entry is kept exactly when it was globbed, is not an excluded name and is not a directory |
| `Bootstrap.Machine.Confirm` | bootstrap.rb:34 | the answer is the next scripted one, or "no" once the script is used up; exactly one answer is consumed |
| `Bootstrap.Machine.ProcessFile` | bootstrap.rb:59-75 | changes the machine exactly as the specification of `process_file` says |
| `Bootstrap.Machine.PrepareEntry` | bootstrap.rb:25-29 | `mkdir_p` of the target's directory when the name holds a '/', then the "Processing" line, exactly as specified; the target name is the one line 28 computes |
| `Bootstrap.Machine.SettleConflict` | bootstrap.rb:30-45 | the existence, identity and prompt branches followed by `process_file`, exactly as specified |
| `Bootstrap.Machine.ProcessEntry` | bootstrap.rb:21-46 | one loop iteration, including the `next` on "no" and the fall-through after "identical", exactly as specified |
| `Bootstrap.Machine.Install` | bootstrap.rb:15-46 | selection, listing, then every entry in order; the first exception stops the loop at that entry |
| `BootstrapFacts.SelectionKeepsGlobOrder` | bootstrap.rb:50-51 | selection distributes over concatenation, so the kept entries stay in glob order |
| `BootstrapFacts.SelectionOfOne` | bootstrap.rb:50-51 | a single entry is kept exactly when it is neither an excluded name nor a directory |
| `BootstrapFacts.ExclusionRemovesNothingFromGlob` | bootstrap.rb:50 | when every globbed entry begins with "dotfiles/", subtracting the six bare names removes nothing |
| `BootstrapFacts.MaterializedTrace` | bootstrap.rb:59-75 | `process_file` uses no answer and prints exactly one line: "Generating" for a template, "Symlinking" otherwise |
| `BootstrapFacts.MaterializedKinds` | bootstrap.rb:59-75 | a template creates no link and, on success, leaves the rendered text where the target leads; any other source writes no file and, on a fresh target, succeeds exactly when the parent is a directory, adding only a link to the absolute source; when the target is a directory or a link to one, a success adds only that link inside the directory, under the base name of the source; a failure changes no file |
| `BootstrapFacts.PreparedOnlyAddsDirectories` | bootstrap.rb:25-26 | directories are made only when the relative name holds a '/'; existing entries are unaffected; only directories on the way to `$HOME/.dirname(f)` appear |
| `BootstrapFacts.AbsentTargetIsProcessedUnprompted` | bootstrap.rb:30 | an absent target goes straight to `process_file` and no answer is consumed |
| `BootstrapFacts.IdenticalTargetStillProcessed` | bootstrap.rb:31-32 | an identical target consumes no answer, removes nothing and still reaches `process_file`; for a non-template whose target is not a directory, the result is EEXIST from `ln_s` |
| `BootstrapFacts.DeclinedTargetIsLeftAlone` | bootstrap.rb:38-41 | a "no" consumes one answer and skips the entry; everything that existed is unchanged and only parent directories may appear |
| `BootstrapFacts.ConfirmedTargetIsReplaced` | bootstrap.rb:34-37 | a "yes" consumes one answer; a directory target raises; otherwise the target is removed before `process_file`, and on success it holds the link to the absolute source. For a template, it holds a file with the rendered content of the source |
| `BootstrapFacts.ExistingTargetIsPromptedWhenProbeMissing` | bootstrap.rb:31 | when nothing exists at the relative name in the working directory, every existing target is put to the operator |
| `BootstrapFacts.PreparedTrace` | bootstrap.rb:25-29 | the lines before the decision announce the relative name once and consume no answer |
| `BootstrapFacts.SettledTrace` | bootstrap.rb:30-45 | the decision prints no announcement and consumes exactly one answer when it prompts, none otherwise |
| `BootstrapFacts.EntryStepTrace` | bootstrap.rb:21-46 | one iteration announces its relative name once (none when `split` gives nil) and consumes one answer per prompt, at most one |
| `BootstrapFacts.RunTrace` | bootstrap.rb:21-46 | a completed run announces every entry exactly once, in list order; answers are consumed one per prompt, in order; output only grows |
| `BootstrapFacts.RunAppend` | bootstrap.rb:21 | entries are handled strictly one after another: a completed prefix hands its state to the rest of the list |
| `BootstrapFacts.LinkedEntryIsAskedAgain` | bootstrap.rb:28-45 | a top-level non-template entry is linked on a fresh home; the same entry run again consumes a prompt and is skipped exactly when the answer is "no" |

## Left out

- `install_oh_my_zsh`, `switch_to_zsh`, `zsh_installed?` and `zsh_active?` (lines 12-13 and 78-110) are left out. They shell out to `git clone` and `chsh` or read the environment, and hold no logic of the materializer.
- ERB rendering and the `OpenStruct`/`binding` evaluation (lines 65-67) are an uninterpreted parameter. Side effects of template code are not modelled.
- Loading `defaults.yml` into `DEFAULTS` (line 9) is file I/O. It is folded into the rendering parameter.
- The terminal UI of `Ask.confirm` (including `clear: true`) is left out. Answers come from a script.
- `Dir.glob` is left out. The globbed list is an input, and its order and hidden-file rules are not modelled.
- Output is modelled as a list of events, without the exact text. Each `puts` of lines 25-39 and 64-73 is one event. `Listing(files)` stands for the 3 + n `puts` of lines 16-19. The shell's echo of `mkdir -p` is not modelled.
- `system` runs `mkdir -p` through a shell. Shell expansion of `"`, `$`, backquote or backslash in file names is not modelled, and a failure of the command is ignored, as in the source.
- Fs.Resolve: symbolic links are followed only on the last path component. A directory reached through a linked ancestor is not modelled, and link targets are taken as absolute paths.
- Fs.MkdirP: directories above `$HOME` are assumed to exist. A blocking non-directory stops the command, and the later directories are not created.
- Permissions, file modes, hard links and partial writes are not modelled. The errno set is limited to ENOENT, EISDIR, EEXIST and ELOOP; a path through a regular file, where Ruby raises ENOTDIR, gives ENOENT.
- Paths.DirName: it is the text before the last '/'. Repeated or trailing separators, which `Dir.glob` does not produce, are not normalised as `File.dirname` would normalise them.
- Paths.AbsolutePath: it joins the working directory and the name. `.` and `..` segments, which `Dir.glob` does not produce, are not normalised.
- Paths.TargetPath: a `$HOME` that ends in '/' is not normalised as `File.join` would normalise it.
