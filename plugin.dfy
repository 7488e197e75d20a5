/**
 * The plugin itself: the factory that checks the options and names the deploy
 * folder, and the stream object whose closure variables (`files`, `self`,
 * `branch`, and the stray global `message`) its transform and flush functions
 * update. Each step of the flush is a method proved equal to the step's
 * function in `Deploy`; the flush drives them as `async.waterfall` does.
 */
module Plugin {
  import opened Wrappers
  import opened Paths
  import opened Fs
  import Purge
  import Copy
  import opened GitCli
  import D = Deploy

  class DeployGit {
    const options: D.Options
    const repoPath: Path
    /** The records pushed by the transform function. */
    var files: seq<Copy.Record>
    /** Whether `self` has been set, by the first file to arrive. */
    var streamSet: bool
    var branch: Option<string>
    /** The global `message` that `git log` output is written to. */
    var logged: Option<string>
    /** The errors emitted on the stream. */
    var emitted: seq<D.Error>

    constructor (options: D.Options, repoPath: Path)
      ensures this.options == options && this.repoPath == repoPath
      ensures files == [] && !streamSet && branch.None? && logged.None? && emitted == []
    {
      this.options := options;
      this.repoPath := repoPath;
      files := [];
      streamSet := false;
      branch := None;
      logged := None;
      emitted := [];
    }

    /** What the flush depends on. */
    function Context(env: Option<string>, oracle: Oracle): D.Ctx
      reads this
    {
      D.Ctx(options, repoPath, files, env, oracle)
    }

    /** What the flush changes. */
    ghost function Snapshot(fs: FileSystem, git: Git): D.State
      reads this, fs, git
    {
      D.State(fs.nodes, git.calls, branch, logged)
    }

    /** The transform function: remembers the stream and appends the
        file's record, in the order files arrive. */
    method Transform(file: D.SourceFile)
      modifies this`files, this`streamSet
      ensures files == old(files) + [D.Collect(options, repoPath, file)]
      ensures streamSet
    {
      streamSet := true;
      var p := Relative(file.cwd, file.path);
      if |options.prefix| > 0 {
        p := Relative(file.cwd + options.prefix, file.path);
      }
      files := files + [Copy.Record(Normalize(file.path), Join(repoPath, p))];
    }

    /** The `forEach` over the configured branches. */
    method Configured(b: Option<string>) returns (found: bool)
      ensures found == D.Found(b, options.branches)
    {
      found := false;
      var i := 0;
      while i < |options.branches|
        invariant 0 <= i <= |options.branches|
        invariant found <==> exists j :: 0 <= j < i && b == Some(options.branches[j])
      {
        if b == Some(options.branches[i]) {
          found := true;
        }
        i := i + 1;
      }
    }

    method CheckBranch(fs: FileSystem, git: Git, env: Option<string>) returns (err: Option<D.Error>)
      modifies this`branch, git
      ensures D.Outcome(Snapshot(fs, git), err) == D.RunStep(Context(env, git.oracle), D.CheckBranch, old(Snapshot(fs, git)))
    {
      if env.Some? {
        var e := git.Spawn(RevParse, None);
        if e.stdout.Some? {
          branch := e.stdout;
        }
        if e.code != 0 {
          return Some(D.GitExited(RevParse, e.code));
        }
      } else {
        branch := env;
      }
      var found := Configured(branch);
      if !found {
        return Some(D.BranchNotConfigured(branch));
      }
      return None;
    }

    method GitClone(fs: FileSystem, git: Git, env: Option<string>) returns (err: Option<D.Error>)
      requires fs.Valid() && D.Prepared(Context(env, git.oracle), Snapshot(fs, git))
      modifies fs, git
      ensures fs.Valid()
      ensures D.Outcome(Snapshot(fs, git), err) == D.RunStep(Context(env, git.oracle), D.GitClone, old(Snapshot(fs, git)))
    {
      var cmd := Clone(options.repository, repoPath);
      var e := git.Spawn(cmd, None);
      if e.code != 0 {
        return Some(D.GitExited(cmd, e.code));
      }
      fs.Mount(repoPath, git.oracle.checkout);
      return None;
    }

    method RemoveFiles(fs: FileSystem, git: Git, env: Option<string>) returns (err: Option<D.Error>)
      requires fs.Valid()
      modifies fs
      ensures fs.Valid()
      ensures D.Outcome(Snapshot(fs, git), err) == D.RunStep(Context(env, git.oracle), D.RemoveFiles, old(Snapshot(fs, git)))
    {
      ghost var bound := Purge.MaxLength(fs.nodes.Keys);
      var e := Purge.Clean(fs, repoPath, bound);
      err := if e.Some? then Some(D.Io(e.value)) else None;
    }

    method CopySources(fs: FileSystem, git: Git, env: Option<string>) returns (err: Option<D.Error>)
      requires fs.Valid()
      modifies fs
      ensures fs.Valid()
      ensures D.Outcome(Snapshot(fs, git), err) == D.RunStep(Context(env, git.oracle), D.CopySources, old(Snapshot(fs, git)))
    {
      var e := Copy.CopySources(fs, files);
      err := if e.Some? then Some(D.Io(e.value)) else None;
    }

    /** A git command in the deploy folder, failing on a non-zero exit. */
    method InFolder(fs: FileSystem, git: Git, env: Option<string>, cmd: Command) returns (err: Option<D.Error>)
      modifies git
      ensures D.Outcome(Snapshot(fs, git), err) == D.Exec(Context(env, git.oracle), old(Snapshot(fs, git)), cmd, Some(repoPath))
    {
      var e := git.Spawn(cmd, Some(repoPath));
      err := if e.code != 0 then Some(D.GitExited(cmd, e.code)) else None;
    }

    method GitLog(fs: FileSystem, git: Git, env: Option<string>) returns (err: Option<D.Error>)
      modifies this`logged, git
      ensures D.Outcome(Snapshot(fs, git), err) == D.RunStep(Context(env, git.oracle), D.GitLog, old(Snapshot(fs, git)))
    {
      err := None;
      if |options.message| == 0 {
        var e := git.Spawn(Log, None);
        if e.stdout.Some? {
          logged := e.stdout;
        }
        if e.code != 0 {
          err := Some(D.GitExited(Log, e.code));
        }
      }
    }

    method RemoveRepository(fs: FileSystem, git: Git, env: Option<string>) returns (err: Option<D.Error>)
      requires fs.Valid() && repoPath != []
      modifies fs
      ensures fs.Valid()
      ensures D.Outcome(Snapshot(fs, git), err) == D.RunStep(Context(env, git.oracle), D.RemoveRepository, old(Snapshot(fs, git)))
    {
      fs.Rimraf(repoPath);
      err := None;
    }

    /** One task of the waterfall. */
    method RunStep(s: D.Step, fs: FileSystem, git: Git, env: Option<string>) returns (err: Option<D.Error>)
      requires fs.Valid() && repoPath != []
      requires s == D.GitClone ==> D.Prepared(Context(env, git.oracle), Snapshot(fs, git))
      modifies this`branch, this`logged, fs, git
      ensures fs.Valid()
      ensures D.Outcome(Snapshot(fs, git), err) == D.RunStep(Context(env, git.oracle), s, old(Snapshot(fs, git)))
    {
      match s
      case CheckBranch => err := CheckBranch(fs, git, env);
      case GitClone => err := GitClone(fs, git, env);
      case RemoveFiles => err := RemoveFiles(fs, git, env);
      case CopySources => err := CopySources(fs, git, env);
      case GitAdd => err := InFolder(fs, git, env, Add);
      case GitLog => err := GitLog(fs, git, env);
      case GitCommit => err := InFolder(fs, git, env, Commit(options.message));
      case GitPush => err := InFolder(fs, git, env, Push);
      case RemoveRepository => err := RemoveRepository(fs, git, env);
    }

    /** `async.waterfall` over the nine tasks: runs them in order until
        one fails, and hands the error, if any, to the final callback. */
    method Waterfall(fs: FileSystem, git: Git, env: Option<string>) returns (err: Option<D.Error>)
      requires fs.Valid() && D.Prepared(Context(env, git.oracle), Snapshot(fs, git))
      modifies this`branch, this`logged, fs, git
      ensures fs.Valid()
      ensures var r := D.Pipeline(Context(env, git.oracle), old(Snapshot(fs, git)));
        Snapshot(fs, git) == r.state && err == r.err
    {
      ghost var c := Context(env, git.oracle);
      ghost var st0 := Snapshot(fs, git);
      D.ResumesStart(c, st0);
      D.StepsShape();
      err := None;
      var i := 0;
      while i < |D.Steps| && err.None?
        invariant 0 <= i <= |D.Steps|
        invariant fs.Valid()
        invariant Context(env, git.oracle) == c
        invariant i <= 1 ==> fs.nodes == st0.nodes
        invariant err.None? ==> D.Resumes(c, st0, i, Snapshot(fs, git))
        invariant err.Some? ==> D.Pipeline(c, st0) == D.Run(Snapshot(fs, git), err, i)
      {
        var step := D.Steps[i];
        assert step == D.GitClone ==> i == 1;
        ghost var before := Snapshot(fs, git);
        D.ResumesStep(c, st0, i, before);
        err := RunStep(step, fs, git, env);
        assert D.Outcome(Snapshot(fs, git), err) == D.RunStep(c, step, before);
        i := i + 1;
      }
      if err.None? {
        D.ResumesEnd(c, st0, Snapshot(fs, git));
      }
    }

    /** The flush function: the waterfall, whose final callback emits the
        error on the stream through `self` and completes with `done(err)`.
        When no file ever arrived, `self` is still null and emitting the
        error crashes instead. */
    method Flush(fs: FileSystem, git: Git, env: Option<string>) returns (done: D.Completion)
      requires fs.Valid() && D.Prepared(Context(env, git.oracle), Snapshot(fs, git))
      modifies this`branch, this`logged, this`emitted, fs, git
      ensures fs.Valid()
      ensures var r := D.Pipeline(Context(env, git.oracle), old(Snapshot(fs, git)));
        Snapshot(fs, git) == r.state &&
        done == D.Finish(r.err, streamSet) &&
        emitted == old(emitted) + (if r.err.Some? && streamSet then [r.err.value] else [])
    {
      var err := Waterfall(fs, git, env);
      if err.Some? {
        if streamSet {
          emitted := emitted + [err.value];
          done := D.Done(err);
        } else {
          done := D.Crashed;
        }
      } else {
        done := D.Done(None);
      }
    }
  }

  /** The exported factory: the options with their defaults, an error when
      no repository is configured, otherwise a fresh stream whose deploy
      folder is named after the clock reading `now`. */
  method Create(given: D.Given, cwd: Path, now: nat) returns (p: DeployGit?, err: Option<D.Error>)
    ensures var o := D.Configure(given);
      (|o.repository| == 0 ==> p == null && err == Some(D.RepositoryMissing)) &&
      (|o.repository| > 0 ==>
         err.None? && p != null && fresh(p) &&
         p.options == o && p.repoPath == D.DeployFolder(cwd, now) &&
         p.files == [] && !p.streamSet && p.branch.None? && p.logged.None? && p.emitted == [])
  {
    var options := D.Configure(given);
    if |options.repository| == 0 {
      return null, Some(D.RepositoryMissing);
    }
    p := new DeployGit(options, D.DeployFolder(cwd, now));
    err := None;
  }
}
