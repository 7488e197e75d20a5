# gulp-deploy-git, modelled in Dafny

gulp-deploy-git is a gulp plugin. It collects the files of a gulp stream. When
the stream ends, it deploys them to a git repository in nine steps, run one
after the other as an `async.waterfall`:

1. check the current branch against the configured branches;
2. clone the repository into a fresh `deploy-<timestamp>` folder;
3. delete every file in the clone except those inside `.git` directories;
4. copy the collected files in;
5. run `git add --all .`;
6. run `git log -1 --oneline` when no message is configured;
7. commit with the configured message;
8. push;
9. remove the folder.

The first step that fails stops the waterfall. Its error is emitted on the
stream and passed to `done`.

The model has the following modules:

- `Paths` holds the parts of node's `path` module the plugin uses. Paths are
  sequences of segments.
- `Fs` models the file system as a map from paths to directories, files and
  links. It has pure functions for `readFileSync`, `writeFileSync`,
  `mkdirp.sync` and `rimraf`. The `FileSystem` class applies them in place.
- `Purge` covers the `removeFiles` step. It has the recursive `clean` walk as
  a method (`Clean`), proved to produce the tree `Purged` describes.
- `Copy` covers the `copySources` step. It has the copy loop as a method
  (`CopySources`), proved equal to the function `CopyAll`.
- `GitCli` models the `git` executable as an object. It records every spawn,
  with its arguments and working directory, and answers from an oracle that
  gives each command's exit code and output.
- `Deploy` holds the plugin's logic as functions: the options with their
  defaults, where each file goes, and each waterfall step as a function from
  state to state plus an optional error. It also holds the lemmas about
  whole runs.
- `Plugin` holds the factory and the stream object (`DeployGit`). The
  object's fields are the closure's variables. Each step is a method proved
  equal to its function in `Deploy`. The flush drives the steps in a loop
  and is proved equal to the function `Pipeline`.

Several things follow `index.js` as written:

- **`GIT_BRANCH` check.** The test is `!== undefined`. So git is asked for
  the branch exactly when `GIT_BRANCH` is set, and the variable's own value
  is never used. When it is unset, the branch becomes `undefined` and the
  check always fails.
- **`git log` output.** It goes into a stray global `message`. No code reads
  that global: the commit always uses `options.message`, even when it is
  empty. Real git refuses `commit -m ""`, so with the default options a
  real flush fails at the commit step and never pushes or removes the
  deploy folder. The model leaves git's answer to the oracle, which may
  also let an empty-message commit exit 0.
- **The clone.** It is `git clone <repository> <folder>`, with no branch
  option.
- **The push.** It is `git push` with no arguments.
- **Branch names.** `refs/heads/` is never stripped from a branch name.
- **A rejected branch.** It is an error, not a quiet skip.
- **A commit with nothing to commit.** It fails like any other non-zero
  exit.
- **The final removal.** It runs only after every other step succeeded. A
  failure after the clone leaves the folder in place.
- **Copying a directory.** The copy step does not skip directory records:
  reading one fails with `EISDIR`, which aborts the step.
- **Cleaning.** It unlinks anything `lstat` does not call a directory,
  symbolic links included. It never removes a directory.

## Model

| member | source | states |
|---|---|---|
| Deploy.Configure | index.js:12-18 | `assign({}, defaults, options)`: a key the caller leaves out takes its default, an empty prefix, message and repository and the branches ["master"] |
| Deploy.ConfigureDefaults | index.js:12-18 | with no options the prefix, message and repository are empty and the branches are ["master"]; every option given overrides its default |
| Plugin.Create | index.js:11-27 | an empty repository gives the missing-repository error and no stream; otherwise a fresh stream with the merged options, no files, no branch, nothing emitted, and the deploy folder named from `cwd` and the clock |
| Deploy.Decimal | index.js:27 | the timestamp's numeral is non-empty and made of decimal digits |
| Deploy.DecimalValue | index.js:27 | the numeral denotes exactly the timestamp, so distinct timestamps give distinct folder names |
| Deploy.DeployFolder | index.js:27 | the deploy folder `normalize(join(cwd, "deploy-" + now))`; it is in normal form |
| Deploy.DeployFolderSpec | index.js:27 | the deploy folder is `normalize(cwd)` plus one segment `deploy-<now>`; it is in normal form, never the root, and its parent is the working directory |
| Paths.Normalize | index.js:27 | the result has no empty, "." or ".." segments and is never longer than the input |
| Paths.CommonPrefix | index.js:31-33 | the length of the longest common prefix: both paths agree up to it and differ just after it |
| Paths.Relative | index.js:31-33 | `path.relative(from, to)`: climbs from `from` to the common ancestor, then descends to `to`; every segment is ".." or a plain name |
| Paths.RelativeDescends | index.js:31-33 | the relative path has no ".." segment exactly when `to` lies below `from` |
| Paths.Join | index.js:37 | `path.join` normalises the concatenation: the result is in normal form and no longer than its two parts together |
| Paths.NormalizeNormal | index.js:27 | normalising a path already in normal form leaves it unchanged |
| Paths.NormalizeAppendNormal | index.js:37 | appending plain segments commutes with normalisation |
| Paths.NormalizeUps | index.js:37 | each appended ".." drops exactly one trailing segment, and at the root stays at the root |
| Paths.JoinRelative | index.js:31-37 | `join(base, relative(from, to))` climbs out of `base` once per segment of `from` past the common prefix, stopping at the root, then descends along the rest of `to` |
| Paths.JoinRelativeBelow | index.js:31-37 | for `to` below `from`, joining the relative path onto `base` gives `base` plus the part of `to` below `from` |
| Paths.JoinPlain | index.js:27 | joining one plain name appends it to the normalised base |
| Plugin.DeployGit.Transform | index.js:29-39 | sets the stream and appends exactly one record, for this file, after all earlier ones |
| Deploy.Dest | index.js:31-37 | where a file goes: its path relative to `cwd`, or to `cwd/prefix` when the prefix is not empty, joined onto the deploy folder; always in normal form |
| Deploy.Collect | index.js:35-38 | the record pushed for a file: its source path and its destination, both in normal form |
| Deploy.DestWithoutPrefix | index.js:31-37 | without a prefix, a file below `cwd` lands at the same relative place below the deploy folder |
| Deploy.DestBelow | index.js:31-37 | with a non-empty prefix, a file below `cwd/prefix` lands at its place relative to `cwd/prefix` below the deploy folder |
| Deploy.DestOutside | index.js:31-37 | a file outside `cwd/prefix` gets a destination that climbs out of the deploy folder, by the exact number of levels it lies outside; a climb deeper than the deploy folder stops at the root, so the file lands at the rest of its own path taken from the root |
| Deploy.DestEscapes | index.js:31-37 | such a file can escape the deploy folder altogether: `/a/x`, with `cwd` `/a/b` and prefix `c/d/e`, goes to `/x` |
| Plugin.DeployGit.Configured | index.js:57-62 | true exactly when some configured branch equals the current branch |
| Plugin.DeployGit.CheckBranch | index.js:42-81 | spawns rev-parse only when `GIT_BRANCH` is set and records its output as the branch; it fails on a non-zero exit, and otherwise fails unless the branch is configured |
| Deploy.CheckBranchSpec | index.js:42-81 | the check passes iff `GIT_BRANCH` is set, rev-parse exits 0 and the resolved branch is configured; a non-zero exit fails with that code whatever the branch; with `GIT_BRANCH` unset the branch is undefined and the check fails; files and log output are untouched |
| Deploy.EnvUnsetFails | index.js:68-79 | with `GIT_BRANCH` unset, the whole flush ends after one step with the not-configured error for an undefined branch, having spawned nothing and changed no file |
| Deploy.GateFailureStops | index.js:41-98 | a failed branch check ends the flush: no clone is spawned, only rev-parse at most, and the file system is unchanged |
| Plugin.DeployGit.GitClone | index.js:82-98 | spawns `git clone <repository> <folder>`; on exit 0 the checked-out tree appears at the folder; otherwise it fails with the exit code and changes no file |
| Deploy.GitCloneSpec | index.js:82-98 | a successful clone creates the folder as a directory holding the checkout and keeps every existing node; a failed one changes nothing |
| Fs.GraftValid | index.js:84 | placing a checkout at a fresh folder keeps the tree well formed, makes the folder a directory and changes no existing node |
| Fs.FileSystem.Mount | index.js:84 | the clone's checkout is placed at the folder, keeping the tree well formed |
| Fs.FileSystem.ReadDir | index.js:102 | fails with ENOENT or ENOTDIR exactly when the path is absent or not a directory; otherwise returns each entry name exactly once |
| Fs.FileSystem.LstatIsDir | index.js:104-105 | reports whether the node itself is a directory, without following links; ENOENT when absent |
| Fs.FileSystem.Unlink | index.js:111 | removes exactly that file or link; a directory gives EISDIR and an absent path ENOENT, changing nothing |
| Fs.Ancestors | index.js:101-112 | every proper ancestor of a node exists and is a directory |
| Fs.NothingBelowFile | index.js:105-111 | no node lies below a file or link |
| Purge.Purged | index.js:101-113 | the tree after `clean(folder)`: it only loses nodes, never gains one |
| Purge.Clean | index.js:101-113 | the walk fails exactly when the folder cannot be read, changing nothing; otherwise the tree becomes `Purged`: every file or link below the folder that is not inside a `.git` directory is unlinked |
| Purge.PurgedBelowAll | index.js:102 | once every entry of a directory is handled, its walk is complete |
| Purge.PurgedBelowGit | index.js:106 | skipping a `.git` directory leaves everything below it |
| Purge.PurgedBelowUnlink | index.js:111 | unlinking a file entry handles it, with nothing below it to handle |
| Purge.PurgedBelowDir | index.js:105-107 | cleaning a non-`.git` directory entry recursively handles everything below it |
| Purge.PurgedKeeps | index.js:101-113 | the walk keeps every directory, every node outside the folder and every node inside a `.git` directory, changes no node it keeps, and keeps the tree well formed |
| Purge.PurgedLeavesOnlyGit | index.js:101-113 | afterwards every remaining non-directory below the folder lies inside a `.git` directory |
| Purge.PurgedIdempotent | index.js:101-113 | a second purge changes nothing |
| Plugin.DeployGit.RemoveFiles | index.js:99-120 | runs `clean(repoPath)`; a read error becomes the step's error; otherwise the tree is purged |
| Fs.MakeDirs | index.js:125 | `mkdirp.sync(dir)`: adds every missing ancestor and `dir` itself; it fails only with EEXIST or ENOTDIR, when one of them is not a directory |
| Fs.Read | index.js:126 | `fs.readFileSync`: follows a link one level; a successful read is of a file or a link, never of a directory |
| Fs.Write | index.js:126 | `fs.writeFileSync`: replaces a file, through a link one level, or creates one in an existing directory; a successful write leaves a node at the path |
| Fs.MakeDirsSpec | index.js:125 | mkdirp succeeds iff no prefix of the directory is a non-directory; then the directory and all its ancestors are directories, old nodes are kept, and only those directories are added |
| Fs.WriteSpec | index.js:126 | a successful write leaves the path reading back the written content, keeps every directory, adds no node but the path, and keeps the tree well formed |
| Fs.FileSystem.Mkdirp | index.js:125 | applies `mkdirp.sync` in place, failing without change when a prefix is not a directory |
| Fs.FileSystem.ReadFile | index.js:126 | reads a regular file, through at most one link; a directory gives EISDIR and an absent path ENOENT |
| Fs.FileSystem.WriteFile | index.js:126 | applies `writeFileSync` in place, failing without change |
| Copy.CopyOne | index.js:125-126 | one iteration: `mkdirp` of the destination's directory, then read the source and write it to the destination; a successful one leaves a node at the destination |
| Copy.CopyAll | index.js:123-131 | the `forEach` inside `try`: records in order, the first error ends the step; only a non-empty list can fail, and after success the last record's destination exists |
| Copy.CopyOneSpec | index.js:125-126 | one copy keeps the tree well formed and every directory; when the destination is not a link, it changes no node but the destination and adds only directories besides it; on success the destination's directories exist and the destination reads back the source's content |
| Copy.CopyAllKeepsDirs | index.js:124-127 | the copy keeps the tree well formed and every directory |
| Copy.CopyAllDirs | index.js:124-127 | after a successful copy, the directories of every record's destination exist, whatever the later records did |
| Copy.CopyAllStops | index.js:123-131 | a failed copy is the first failing record applied after all earlier records succeeded; no later record is touched |
| Copy.CopyAllFrame | index.js:124-127 | when no destination is a link, a node no record targets is left as it was |
| Copy.CopyOneKeepsApart | index.js:124-127 | after one successful copy, sources and destinations still do not alias |
| Copy.CopyAllFirstKept | index.js:124-127 | when no destination is a link and no source is a destination or a link to one, the first record's content stays at its destination if no later record names it |
| Copy.CopyAllLastWins | index.js:124-127 | when no destination is a link and no source is a destination or a link to one, after a successful copy each destination holds the content of the last record naming it |
| Copy.ReadBeforeCopy | index.js:126 | when the destination is not a link and the source is neither the destination nor a link to it, a successful copy does not change what that source reads |
| Copy.CopySources | index.js:123-131 | the loop's tree and error equal `CopyAll`: records are copied in order and the first error aborts |
| Plugin.DeployGit.CopySources | index.js:121-132 | the copy loop over the collected records; the first I/O error becomes the step's error |
| GitCli.Argv | index.js:44-186 | the argument vectors of the six spawns: never empty; the first word is "clone" exactly for the clone and "commit" exactly for the commit; the repository is the clone's second argument and the message the commit's last |
| GitCli.Git.Spawn | index.js:44-186 | every `spawn` of the plugin (lines 44, 84, 134, 150, 170 and 186): records the arguments and working directory after all earlier ones, and answers with the oracle's exit for that command |
| Plugin.DeployGit.InFolder | index.js:133-147 | spawns the command in the deploy folder; a non-zero exit fails with that code |
| Plugin.DeployGit.GitLog | index.js:148-167 | spawns `git log -1 --oneline` only without a configured message, and stores its output in the stray variable; a non-zero exit fails |
| Plugin.DeployGit.RemoveRepository | index.js:200-208 | removes the deploy folder and everything below it |
| Fs.RemoveTreeValid | index.js:202 | removing a non-root subtree removes exactly the nodes below it and keeps the tree well formed |
| Fs.FileSystem.Rimraf | index.js:202 | applies the subtree removal in place |
| Fs.RemoveTree | index.js:202 | `rimraf(p)`: only removes nodes, and leaves nothing at or below `p` |
| Deploy.RunStep | index.js:42-208 | one task of the waterfall; it changes only its own part of the state: only the branch check the branch, only `git log` the stray variable, only the clone, clean, copy and removal the file system |
| Plugin.DeployGit.RunStep | index.js:41-208 | each task changes files, spawns and variables exactly as its step function says |
| Deploy.RunSteps | index.js:41-209 | a waterfall runs at most its tasks; a run without error ran all of them, and a failed run ran at least one |
| Deploy.Pipeline | index.js:41-209 | the waterfall over the nine tasks: the branch check always runs, and no more than the nine tasks do |
| Deploy.RunStepsLast | index.js:41-209 | a run is the error-free run of the tasks before its last executed task, followed by that task; after the first error nothing more runs |
| Deploy.RunStepsCalls | index.js:41-208 | the processes a run spawns are those of the tasks it ran, in task order |
| Deploy.TraceOfSteps | index.js:41-208 | the nine tasks spawn rev-parse (only with `GIT_BRANCH` set), clone, add, log (only without a message), commit with the message, and push |
| Deploy.PipelineCalls | index.js:41-208 | every flush spawns a prefix of that fixed sequence, and a successful flush spawns all of it |
| Deploy.FullTraceMessages | index.js:148-183 | in that sequence `git log` appears only without a message, and every commit carries the configured message |
| Deploy.PipelineMessages | index.js:148-183 | whatever the outcome, `git log` was spawned only without a configured message, and every commit used the configured message |
| Deploy.StepLogOutputIgnored | index.js:148-170 | a single task, run with two different `git log` outputs, ends the same way and differs at most in the stray variable |
| Deploy.LogOutputIgnored | index.js:148-170 | what `git log` prints never affects the flush: two flushes differing only in that output spawn the same processes, leave the same files and branch, and end the same way |
| Deploy.StepKeepsDir | index.js:99-199 | a task other than the clone and the removal keeps the tree well formed and every directory |
| Deploy.RunStepsKeepDir | index.js:99-199 | a run of such tasks keeps the tree well formed and every directory |
| Deploy.RunStepsKeepBranch | index.js:82-208 | no task but the branch check changes the branch |
| Deploy.TailOutcome | index.js:99-208 | after the clone, a failing run keeps the deploy folder as a directory and never reaches the removal; a successful one leaves nothing below the folder |
| Deploy.AfterClone | index.js:82-98 | a flush that got past the clone goes on, with the remaining tasks, in a well-formed tree holding the deploy folder as a directory |
| Deploy.PipelineSuccessBranch | index.js:42-81 | a successful flush ran on a configured branch |
| Deploy.PipelineSuccessFolder | index.js:200-208 | a successful flush removed the deploy folder entirely and left the file system well formed |
| Deploy.PipelineSuccess | index.js:41-214 | a successful flush ran on a configured branch, spawned the full sequence in order, and removed the deploy folder, leaving the file system well formed |
| Deploy.PipelineFailureKeepsFolder | index.js:200-214 | a flush that fails after the clone never ran the removal, so the deploy folder is still a directory |
| Plugin.DeployGit.Waterfall | index.js:41-209 | the loop over the tasks ends in exactly the state and with exactly the error of `Pipeline` |
| Deploy.Finish | index.js:209-214 | the final callback: it crashes exactly when there is an error and no file ever set `self`; otherwise it calls `done` with the waterfall's own error |
| Plugin.DeployGit.Flush | index.js:40-214 | the state is that of `Pipeline`; on error, the error is emitted once by the plugin's own `self.emit` and `done(err)` is called, or the flush crashes when no file ever arrived; on success it completes with `done()` and emits nothing |

## Left out

- Stream machinery. The model counts only the plugin's own `self.emit('error', …)`. Through2 emits the error passed to `done(err)` a second time, and `emit('error')` with no listener throws before `done` is reached. The model captures neither.
- Streams and processes. The through2 object stream and the child processes' output streams are not modelled. Each git command is one exit code plus its last trimmed output chunk, and all output is taken to arrive before the exit event.
- Logging. `gutil.log` and the `debug` option only log.
- Outside values. `Date.now()`, `process.cwd()` and `process.env.GIT_BRANCH` are parameters of the model.
- Exit codes. A process killed by a signal (a null exit code) is not modelled; every exit code is an integer.
- Option types. Options given with the value `undefined`, or with values of the wrong type, are not modelled.
- The prefix. It is a list of path segments. The source concatenates it as a string after `path.sep`, which the model does not capture.
- File paths. Vinyl file paths are taken as absolute. A record keeps the source path in normal form, since `readFileSync` resolves empty, "." and ".." segments. A ".." is resolved by dropping the segment before it. The file system resolves it through that segment, and fails when the segment does not exist; the model does not capture that failure. The `path.normalize` applied to a relative path is left out, because `Relative` already returns a path in normal form.
- Symbolic links. Reads and writes follow at most one link, and only to a regular file. Link chains and links to directories beyond that are not modelled.
- The directory listing. `readdirSync` returns each entry once, in an order the model leaves open.
- Permission errors. No file-system permissions exist in the model, so `rimraf` never fails and the removal step never errors.
- The factory's error. `this.emit('error', …)` happens on the caller's `this`. The model returns the error to the caller.
- Plugin.DeployGit.Flush: requires that the deploy folder does not exist yet, that its parent is a directory and that the clone's checkout is a well-formed tree. The source assumes this of a folder named after the current time, but does not check it.
- Purge.Clean: takes a ghost depth bound for its termination argument. The source's recursion terminates because the tree is finite.
- Copy.CopyAllLastWins: stated only when no source is a destination or a link to one, and no destination is a link.
- Copy.CopyAllFrame: stated only when no destination is a link. A write through a link changes the link's target, a node that no record names.
- Copy.CopyAllFirstKept: stated only when no destination is a link and no source is a destination or a link to one.
- Copy.ReadBeforeCopy: stated only when the destination is not a link and the source is neither the destination nor a link to it. Otherwise the copy does change what the source reads.
- Copy.CopyOneSpec: its frame part (only the destination changes) is stated only when the destination is not a link.
- Deploy.DestBelow: stated for a deploy folder in normal form, which Deploy.DeployFolderSpec proves.
