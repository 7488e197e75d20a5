/**
 * What the plugin does, as functions: the options with their defaults, where
 * each collected file goes, and the nine steps of the flush waterfall, each a
 * function from the state before it to the state after it and the error it
 * passes to the waterfall's callback, if any.
 */
module Deploy {
  import opened Wrappers
  import opened Paths
  import opened Fs
  import Purge
  import Copy
  import opened GitCli

  // ---------------------------------------------------------------- options

  /** The options after the defaults are merged in. `debug` only switches
      logging, which is not modelled. */
  datatype Options = Options(prefix: Path, message: string, repository: string, branches: seq<string>)

  /** The options as the caller gives them: None for a key left out. */
  datatype Given = Given(
    prefix: Option<Path>, message: Option<string>,
    repository: Option<string>, branches: Option<seq<string>>)

  function Pick<T>(given: Option<T>, default: T): T {
    if given.Some? then given.value else default
  }

  /** `assign({}, defaults, options)`: a key the caller gives wins over its default. */
  function Configure(g: Given): (o: Options)
    ensures g.prefix.None? ==> o.prefix == []
    ensures g.message.None? ==> o.message == ""
    ensures g.repository.None? ==> o.repository == ""
    ensures g.branches.None? ==> o.branches == ["master"]
  {
    Options(Pick(g.prefix, []), Pick(g.message, ""), Pick(g.repository, ""), Pick(g.branches, ["master"]))
  }

  /** With nothing given, the prefix, message and repository are empty and
      only "master" may deploy; every key given is taken as it is. */
  lemma ConfigureDefaults(g: Given)
    ensures Configure(Given(None, None, None, None)) == Options([], "", "", ["master"])
    ensures g.prefix.Some? ==> Configure(g).prefix == g.prefix.value
    ensures g.message.Some? ==> Configure(g).message == g.message.value
    ensures g.repository.Some? ==> Configure(g).repository == g.repository.value
    ensures g.branches.Some? ==> Configure(g).branches == g.branches.value
  {
  }

  // ---------------------------------------------------------- deploy folder

  function Digit(d: nat): char
    requires d < 10
  {
    "0123456789"[d]
  }

  /** The decimal numeral of `n`, as `'' + n` prints it. */
  function Decimal(n: nat): (s: string)
    ensures |s| >= 1
    ensures forall i :: 0 <= i < |s| ==> '0' <= s[i] <= '9'
  {
    if n < 10 then [Digit(n)] else Decimal(n / 10) + [Digit(n % 10)]
  }

  /** The number a string of decimal digits denotes. */
  function Value(s: string): nat
    requires forall i :: 0 <= i < |s| ==> '0' <= s[i] <= '9'
  {
    if s == [] then 0 else 10 * Value(s[..|s| - 1]) + (s[|s| - 1] - '0') as nat
  }

  /** The numeral denotes the number it was made from. */
  lemma {:induction false} DecimalValue(n: nat)
    ensures Value(Decimal(n)) == n
  {
    if n >= 10 {
      DecimalValue(n / 10);
      var s := Decimal(n);
      assert s[..|s| - 1] == Decimal(n / 10);
    }
  }

  /** `path.normalize(path.join(process.cwd(), 'deploy-' + Date.now()))`. */
  function DeployFolder(cwd: Path, now: nat): (r: Path)
    ensures NormalForm(r)
  {
    Normalize(Join(cwd, ["deploy-" + Decimal(now)]))
  }

  /** The deploy folder is a fresh-named child of the normalised working
      directory, in normal form and never the root. */
  lemma DeployFolderSpec(cwd: Path, now: nat)
    ensures DeployFolder(cwd, now) == Normalize(cwd) + ["deploy-" + Decimal(now)]
    ensures NormalForm(DeployFolder(cwd, now)) && DeployFolder(cwd, now) != []
    ensures Dirname(DeployFolder(cwd, now)) == Normalize(cwd)
  {
    var name := "deploy-" + Decimal(now);
    assert name[0] == 'd';
    JoinPlain(cwd, name);
    NormalizeNormal(Join(cwd, [name]));
  }

  // ------------------------------------------------------- collecting files

  /** The two properties of a vinyl file the plugin reads. */
  datatype SourceFile = SourceFile(cwd: Path, path: Path)

  /** Where a file goes: its path relative to its `cwd`, or to `cwd/prefix`
      when the prefix is not empty, joined onto the deploy folder. */
  function Dest(o: Options, repoPath: Path, f: SourceFile): (r: Path)
    ensures NormalForm(r)
  {
    var rel := if |o.prefix| > 0 then Relative(f.cwd + o.prefix, f.path) else Relative(f.cwd, f.path);
    Join(repoPath, rel)
  }

  /** The record the transform function pushes for a file. Its source is
      `file.path`, held in normal form: `readFileSync` resolves the same
      file through empty, "." and ".." segments. */
  function Collect(o: Options, repoPath: Path, f: SourceFile): (r: Copy.Record)
    ensures NormalForm(r.path) && NormalForm(r.dest)
  {
    Copy.Record(Normalize(f.path), Dest(o, repoPath, f))
  }

  /** A file inside `cwd/prefix` keeps its place below that directory,
      now below the deploy folder. */
  lemma DestBelow(o: Options, repoPath: Path, f: SourceFile)
    requires NormalForm(repoPath)
    requires IsPrefix(Normalize(f.cwd + o.prefix), Normalize(f.path))
    ensures Dest(o, repoPath, f) == repoPath + Normalize(f.path)[|Normalize(f.cwd + o.prefix)|..]
  {
    if |o.prefix| == 0 {
      assert f.cwd + o.prefix == f.cwd;
    }
    JoinRelativeBelow(repoPath, f.cwd + o.prefix, f.path);
  }

  /** Without a prefix, a file keeps its place relative to its `cwd`. */
  lemma DestWithoutPrefix(o: Options, repoPath: Path, f: SourceFile)
    requires NormalForm(repoPath) && o.prefix == []
    requires IsPrefix(Normalize(f.cwd), Normalize(f.path))
    ensures Dest(o, repoPath, f) == repoPath + Normalize(f.path)[|Normalize(f.cwd)|..]
  {
    assert f.cwd + o.prefix == f.cwd;
    DestBelow(o, repoPath, f);
  }

  /** A file outside `cwd/prefix` climbs out of the deploy folder: the
      destination drops as many trailing segments of the deploy folder as
      the file's path leaves `cwd/prefix` behind. A climb deeper than the
      deploy folder stops at the root, so the file then lands at the rest
      of its own path taken from the root, outside the deploy folder. */
  lemma DestOutside(o: Options, repoPath: Path, f: SourceFile)
    requires NormalForm(repoPath)
    ensures var from, to := Normalize(f.cwd + o.prefix), Normalize(f.path);
            var k := CommonPrefix(from, to);
            Dest(o, repoPath, f) == Climb(repoPath, |from| - k) + to[k..]
  {
    if |o.prefix| == 0 {
      assert f.cwd + o.prefix == f.cwd;
    }
    JoinRelative(repoPath, f.cwd + o.prefix, f.path);
  }

  /** A file that `cwd/prefix` leaves behind by more levels than the deploy
      folder is deep escapes it: `/a/x` with `cwd` `/a/b` and prefix `c/d/e`
      goes to `/x` for the deploy folder `/a/b/deploy-1`. */
  lemma DestEscapes()
    ensures Dest(Options(["c", "d", "e"], "", "r", ["master"]), ["a", "b", "deploy-1"],
                 SourceFile(["a", "b"], ["a", "x"])) == ["x"]
  {
    var o := Options(["c", "d", "e"], "", "r", ["master"]);
    var repoPath := ["a", "b", "deploy-1"];
    var f := SourceFile(["a", "b"], ["a", "x"]);
    EscapePaths();
    DestOutside(o, repoPath, f);
    assert Climb(repoPath, 4) == [];
  }

  /** The paths of `DestEscapes`: both normal, sharing only their first segment. */
  lemma EscapePaths()
    ensures Normalize(["a", "b"] + ["c", "d", "e"]) == ["a", "b", "c", "d", "e"]
    ensures Normalize(["a", "x"]) == ["a", "x"]
    ensures CommonPrefix(["a", "b", "c", "d", "e"], ["a", "x"]) == 1
  {
    var from: Path := ["a", "b", "c", "d", "e"];
    assert ["a", "b"] + ["c", "d", "e"] == from;
    NormalizeNormal(from);
    NormalizeNormal(["a", "x"]);
    assert from[1..][0] != ["a", "x"][1..][0];
  }

  // -------------------------------------------------------------- the steps

  /** The error handed to the waterfall's callback. */
  datatype Error =
    | RepositoryMissing
    | BranchNotConfigured(branch: Option<string>)
    | GitExited(command: Command, code: int)
    | Io(error: FsError)

  /** The tasks of `async.waterfall`, named as in the source. */
  datatype Step =
    | CheckBranch | GitClone | RemoveFiles | CopySources
    | GitAdd | GitLog | GitCommit | GitPush | RemoveRepository

  const Steps: seq<Step> :=
    [CheckBranch, GitClone, RemoveFiles, CopySources, GitAdd, GitLog, GitCommit, GitPush, RemoveRepository]

  /** What a flush depends on and does not change: the options, the deploy
      folder, the collected records, the `GIT_BRANCH` environment variable
      and how git answers. */
  datatype Ctx = Ctx(options: Options, repoPath: Path, files: seq<Copy.Record>, env: Option<string>, oracle: Oracle)

  /** What a flush changes: the file system, the git processes spawned, the
      closure's `branch` and the stray global `message` that `git log` sets. */
  datatype State = State(nodes: Tree, calls: seq<Invocation>, branch: Option<string>, logged: Option<string>)

  datatype Outcome = Outcome(state: State, err: Option<Error>)

  /** The `forEach` over `options.branches`: some entry equals the branch. */
  predicate Found(branch: Option<string>, branches: seq<string>) {
    exists j :: 0 <= j < |branches| && branch == Some(branches[j])
  }

  function Spawned(st: State, cmd: Command, cwd: Option<Path>): State {
    st.(calls := st.calls + [Invocation(Argv(cmd), cwd)])
  }

  /** A git command whose only effect the plugin sees is its exit code. */
  function Exec(c: Ctx, st: State, cmd: Command, cwd: Option<Path>): Outcome {
    var e := Answer(c.oracle, cmd);
    Outcome(Spawned(st, cmd, cwd), if e.code != 0 then Some(GitExited(cmd, e.code)) else None)
  }

  /** The membership test that ends `checkBranch`. */
  function Gate(c: Ctx, st: State): Outcome {
    if Found(st.branch, c.options.branches) then Outcome(st, None)
    else Outcome(st, Some(BranchNotConfigured(st.branch)))
  }

  /** The branch `checkBranch` tests when git is asked: the last output of
      `git rev-parse`, or the branch as it was if it printed nothing. */
  function Resolved(c: Ctx, st: State): Option<string> {
    if c.oracle.revParse.stdout.Some? then c.oracle.revParse.stdout else st.branch
  }

  /** One task of the waterfall. Each task changes only its own part of the
      state: the branch check the branch, `git log` the stray variable, and
      only the clone, clean, copy and removal tasks the file system. */
  function RunStep(c: Ctx, s: Step, st: State): (o: Outcome)
    ensures s != CheckBranch ==> o.state.branch == st.branch
    ensures s != GitLog ==> o.state.logged == st.logged
    ensures s != GitClone && s != RemoveFiles && s != CopySources && s != RemoveRepository ==>
              o.state.nodes == st.nodes
  {
    match s
    case CheckBranch =>
      // git is asked exactly when GIT_BRANCH is set; otherwise the branch
      // becomes the (unset) variable itself
      if c.env.Some? then
        var e := Answer(c.oracle, RevParse);
        var st1 := Spawned(st, RevParse, None).(branch := Resolved(c, st));
        if e.code != 0 then Outcome(st1, Some(GitExited(RevParse, e.code)))
        else Gate(c, st1)
      else Gate(c, st.(branch := c.env))
    case GitClone =>
      var cmd := Clone(c.options.repository, c.repoPath);
      var o := Exec(c, st, cmd, None);
      if o.err.Some? then o
      else Outcome(o.state.(nodes := Graft(st.nodes, c.repoPath, c.oracle.checkout)), None)
    case RemoveFiles =>
      var e := ReaddirError(st.nodes, c.repoPath);
      if e.Some? then Outcome(st, Some(Io(e.value)))
      else Outcome(st.(nodes := Purge.Purged(st.nodes, c.repoPath)), None)
    case CopySources =>
      var r := Copy.CopyAll(st.nodes, c.files);
      Outcome(st.(nodes := r.nodes), if r.err.Some? then Some(Io(r.err.value)) else None)
    case GitAdd =>
      Exec(c, st, Add, Some(c.repoPath))
    case GitLog =>
      if |c.options.message| == 0 then
        var e := Answer(c.oracle, Log);
        var o := Exec(c, st, Log, None);
        o.(state := o.state.(logged := if e.stdout.Some? then e.stdout else st.logged))
      else Outcome(st, None)
    case GitCommit =>
      Exec(c, st, Commit(c.options.message), Some(c.repoPath))
    case GitPush =>
      Exec(c, st, Push, Some(c.repoPath))
    case RemoveRepository =>
      Outcome(st.(nodes := RemoveTree(st.nodes, c.repoPath)), None)
  }

  /** A waterfall's end: the final state, the error that stopped it, and how
      many steps ran (the failing one included). */
  datatype Run = Run(state: State, err: Option<Error>, ran: nat)

  /** `async.waterfall`: each step runs when the one before it succeeded. */
  function RunSteps(c: Ctx, steps: seq<Step>, st: State): (r: Run)
    ensures r.ran <= |steps|
    ensures r.err.None? ==> r.ran == |steps|
    ensures r.err.Some? ==> r.ran >= 1
    decreases |steps|
  {
    if steps == [] then Run(st, None, 0)
    else
      var o := RunStep(c, steps[0], st);
      if o.err.Some? then Run(o.state, o.err, 1)
      else
        var r := RunSteps(c, steps[1..], o.state);
        Run(r.state, r.err, r.ran + 1)
  }

  /** The flush's waterfall over the nine tasks; the branch check always runs. */
  function Pipeline(c: Ctx, st: State): (r: Run)
    ensures 1 <= r.ran <= |Steps|
  {
    RunSteps(c, Steps, st)
  }

  /** Completion of the flush: `done(err)`, or a crash when the waterfall
      failed before any file reached the transform function, since `self`
      is still null when `self.emit('error', err)` runs. */
  datatype Completion = Done(err: Option<Error>) | Crashed

  function Finish(err: Option<Error>, streamSet: bool): (d: Completion)
    ensures d.Crashed? <==> err.Some? && !streamSet
    ensures d.Done? ==> d.err == err
  {
    if err.None? then Done(None) else if streamSet then Done(err) else Crashed
  }

  // ------------------------------------------------------------- properties

  /** The git processes a step spawns when it runs; they depend only on the
      context, never on the state. */
  function StepCalls(c: Ctx, s: Step): seq<Invocation> {
    match s
    case CheckBranch => if c.env.Some? then [Invocation(Argv(RevParse), None)] else []
    case GitClone => [Invocation(Argv(Clone(c.options.repository, c.repoPath)), None)]
    case GitAdd => [Invocation(Argv(Add), Some(c.repoPath))]
    case GitLog => if |c.options.message| == 0 then [Invocation(Argv(Log), None)] else []
    case GitCommit => [Invocation(Argv(Commit(c.options.message)), Some(c.repoPath))]
    case GitPush => [Invocation(Argv(Push), Some(c.repoPath))]
    case _ => []
  }

  function Trace(c: Ctx, steps: seq<Step>): seq<Invocation>
    decreases |steps|
  {
    if steps == [] then [] else StepCalls(c, steps[0]) + Trace(c, steps[1..])
  }

  /** Every git process of a complete deployment, in order, written out. */
  function FullTrace(c: Ctx): seq<Invocation> {
    (if c.env.Some? then [Invocation(["rev-parse", "--abbrev-ref", "HEAD"], None)] else [])
    + [Invocation(["clone", c.options.repository, Show(c.repoPath)], None),
       Invocation(["add", "--all", "."], Some(c.repoPath))]
    + (if |c.options.message| == 0 then [Invocation(["log", "-1", "--oneline"], None)] else [])
    + [Invocation(["commit", "-m", c.options.message], Some(c.repoPath)),
       Invocation(["push"], Some(c.repoPath))]
  }

  /** The last three steps spawn commit and push; the removal spawns nothing. */
  lemma TraceOfPublishSteps(c: Ctx)
    ensures Trace(c, Steps[6..]) ==
      [Invocation(Argv(Commit(c.options.message)), Some(c.repoPath)), Invocation(Argv(Push), Some(c.repoPath))]
  {
    var s := Steps[6..];
    assert s[2..] == [RemoveRepository] && s[2..][1..] == [];
    assert s[1..][0] == GitPush && s[1..][1..] == s[2..];
    assert s[0] == GitCommit;
    assert Trace(c, s[2..]) == [];
    assert Trace(c, s[1..]) == [Invocation(Argv(Push), Some(c.repoPath))];
  }

  /** The steps from `gitAdd` on spawn add, log (without a message), commit and push. */
  lemma TraceOfLaterSteps(c: Ctx)
    ensures Trace(c, Steps[4..]) ==
      [Invocation(Argv(Add), Some(c.repoPath))] + StepCalls(c, GitLog) +
      [Invocation(Argv(Commit(c.options.message)), Some(c.repoPath)), Invocation(Argv(Push), Some(c.repoPath))]
  {
    var s := Steps[4..];
    assert s[2..] == Steps[6..];
    assert s[1..][0] == GitLog && s[1..][1..] == s[2..];
    assert s[0] == GitAdd;
    TraceOfPublishSteps(c);
    var publish := Trace(c, s[2..]);
    var add := [Invocation(Argv(Add), Some(c.repoPath))];
    calc {
      Trace(c, s);
      add + Trace(c, s[1..]);
      add + (StepCalls(c, GitLog) + publish);
      { ConcatAssoc(add, StepCalls(c, GitLog), publish); }
      (add + StepCalls(c, GitLog)) + publish;
    }
  }

  /** The clone and the two file-system steps: only the clone spawns git. */
  lemma TraceOfEarlySteps(c: Ctx)
    ensures Trace(c, Steps[1..]) == [Invocation(Argv(Clone(c.options.repository, c.repoPath)), None)] + Trace(c, Steps[4..])
  {
    var s := Steps[1..];
    assert s[2..][0] == CopySources && s[2..][1..] == Steps[4..];
    assert s[1..][0] == RemoveFiles && s[1..][1..] == s[2..];
    assert s[0] == GitClone;
    assert Trace(c, s[2..]) == Trace(c, Steps[4..]);
    assert Trace(c, s[1..]) == Trace(c, Steps[4..]);
  }

  /** The nine steps together spawn exactly the full trace. */
  lemma TraceOfSteps(c: Ctx)
    ensures Trace(c, Steps) == FullTrace(c)
  {
    TraceOfLaterSteps(c);
    TraceOfEarlySteps(c);
    FullTraceShape(c);
    assert Steps[0] == CheckBranch;
  }

  lemma FullTraceShape(c: Ctx)
    ensures FullTrace(c) ==
      StepCalls(c, CheckBranch) +
      ([Invocation(Argv(Clone(c.options.repository, c.repoPath)), None)] +
       ([Invocation(Argv(Add), Some(c.repoPath))] + StepCalls(c, GitLog) +
        [Invocation(Argv(Commit(c.options.message)), Some(c.repoPath)), Invocation(Argv(Push), Some(c.repoPath))]))
  {
  }

  lemma {:induction false} TraceSplit(c: Ctx, steps: seq<Step>, n: nat)
    requires n <= |steps|
    ensures Trace(c, steps) == Trace(c, steps[..n]) + Trace(c, steps[n..])
    decreases n
  {
    if n == 0 {
      assert steps[..0] == [] && steps[0..] == steps;
    } else {
      var rest := steps[1..];
      TraceSplit(c, rest, n - 1);
      var pre := steps[..n];
      assert pre[0] == steps[0] && pre[1..] == rest[..n - 1];
      assert rest[n - 1..] == steps[n..];
      calc {
        Trace(c, steps);
        StepCalls(c, steps[0]) + Trace(c, rest);
        StepCalls(c, steps[0]) + (Trace(c, rest[..n - 1]) + Trace(c, steps[n..]));
        (StepCalls(c, steps[0]) + Trace(c, pre[1..])) + Trace(c, steps[n..]);
        Trace(c, pre) + Trace(c, steps[n..]);
      }
    }
  }

  lemma RunStepCalls(c: Ctx, s: Step, st: State)
    ensures RunStep(c, s, st).state.calls == st.calls + StepCalls(c, s)
  {
  }

  /** The processes a run spawns are those of the steps it ran, in order. */
  lemma {:induction false} RunStepsCalls(c: Ctx, steps: seq<Step>, st: State)
    ensures RunSteps(c, steps, st).state.calls == st.calls + Trace(c, steps[..RunSteps(c, steps, st).ran])
    decreases |steps|
  {
    if steps == [] {
      assert steps[..0] == [];
    } else {
      var o := RunStep(c, steps[0], st);
      RunStepCalls(c, steps[0], st);
      RunStepsCons(c, steps, st);
      if o.err.Some? {
        var one := steps[..1];
        assert one[0] == steps[0] && one[1..] == [];
        assert Trace(c, one) == StepCalls(c, steps[0]);
      } else {
        var r := RunSteps(c, steps[1..], o.state);
        RunStepsCalls(c, steps[1..], o.state);
        var pre := steps[..r.ran + 1];
        assert pre[0] == steps[0] && pre[1..] == steps[1..][..r.ran];
        calc {
          RunSteps(c, steps, st).state.calls;
          r.state.calls;
          o.state.calls + Trace(c, pre[1..]);
          (st.calls + StepCalls(c, steps[0])) + Trace(c, pre[1..]);
          { ConcatAssoc(st.calls, StepCalls(c, steps[0]), Trace(c, pre[1..])); }
          st.calls + (StepCalls(c, pre[0]) + Trace(c, pre[1..]));
          st.calls + Trace(c, pre);
        }
      }
    }
  }

  /** The plugin always runs git in one fixed order: the processes of any
      flush are a prefix of the full trace (rev-parse, clone, add, log,
      commit, push, leaving out rev-parse when GIT_BRANCH is unset and log
      when a message is given), and a successful flush spawns all of it. */
  lemma PipelineCalls(c: Ctx, st: State)
    ensures var r := Pipeline(c, st);
      (exists m :: 0 <= m <= |FullTrace(c)| && r.state.calls == st.calls + FullTrace(c)[..m]) &&
      (r.err.None? ==> r.state.calls == st.calls + FullTrace(c))
  {
    var r := Pipeline(c, st);
    RunStepsCalls(c, Steps, st);
    TraceSplit(c, Steps, r.ran);
    TraceOfSteps(c);
    var m := |Trace(c, Steps[..r.ran])|;
    assert FullTrace(c)[..m] == Trace(c, Steps[..r.ran]);
    if r.err.None? {
      assert Steps[..r.ran] == Steps;
    }
  }

  /** In the full trace, `git log` appears only without a message, and
      every commit carries the configured message. */
  lemma FullTraceMessages(c: Ctx)
    ensures forall j :: 0 <= j < |FullTrace(c)| ==>
      (FullTrace(c)[j].argv == Argv(Log) ==> |c.options.message| == 0) &&
      (|FullTrace(c)[j].argv| > 0 && FullTrace(c)[j].argv[0] == "commit" ==>
         FullTrace(c)[j].argv == ["commit", "-m", c.options.message])
  {
    var head := if c.env.Some? then [Invocation(["rev-parse", "--abbrev-ref", "HEAD"], None)] else [];
    var log := if |c.options.message| == 0 then [Invocation(["log", "-1", "--oneline"], None)] else [];
    var mid := [Invocation(["clone", c.options.repository, Show(c.repoPath)], None),
                Invocation(["add", "--all", "."], Some(c.repoPath))];
    var tail := [Invocation(["commit", "-m", c.options.message], Some(c.repoPath)),
                 Invocation(["push"], Some(c.repoPath))];
    assert FullTrace(c) == head + mid + log + tail;
    forall j | 0 <= j < |FullTrace(c)|
      ensures FullTrace(c)[j] in head || FullTrace(c)[j] in mid || FullTrace(c)[j] in log || FullTrace(c)[j] in tail
    {
    }
  }

  /** Any prefix of the full trace, appended to earlier spawns, has the
      same two properties. */
  lemma PrefixMessages(c: Ctx, calls0: seq<Invocation>, calls: seq<Invocation>, m: nat)
    requires m <= |FullTrace(c)| && calls == calls0 + FullTrace(c)[..m]
    ensures forall i :: |calls0| <= i < |calls| ==>
        (calls[i].argv == Argv(Log) ==> |c.options.message| == 0) &&
        (|calls[i].argv| > 0 && calls[i].argv[0] == "commit" ==>
           calls[i].argv == ["commit", "-m", c.options.message])
  {
    FullTraceMessages(c);
    forall i | |calls0| <= i < |calls|
      ensures calls[i] == FullTrace(c)[i - |calls0|]
    {
    }
  }

  /** Whatever a flush ends with, it spawned `git log` only when no message
      was configured, and every commit it spawned used the configured
      message, never the output of `git log`. */
  lemma PipelineMessages(c: Ctx, st: State)
    ensures var r := Pipeline(c, st);
      forall i :: |st.calls| <= i < |r.state.calls| ==>
        (r.state.calls[i].argv == Argv(Log) ==> |c.options.message| == 0) &&
        (|r.state.calls[i].argv| > 0 && r.state.calls[i].argv[0] == "commit" ==>
           r.state.calls[i].argv == ["commit", "-m", c.options.message])
  {
    var calls := Pipeline(c, st).state.calls;
    PipelineCalls(c, st);
    var m :| 0 <= m <= |FullTrace(c)| && calls == st.calls + FullTrace(c)[..m];
    PrefixMessages(c, st.calls, calls, m);
  }

  /** A run is the run of the steps before its last executed step, which
      succeeded, followed by that step: after the first error nothing more
      runs, and a complete run ends with its last step. */
  lemma {:induction false} RunStepsLast(c: Ctx, steps: seq<Step>, st: State)
    requires steps != []
    ensures var r := RunSteps(c, steps, st);
      var before := RunSteps(c, steps[..r.ran - 1], st);
      1 <= r.ran && before.err.None? && before.ran == r.ran - 1 &&
      RunStep(c, steps[r.ran - 1], before.state) == Outcome(r.state, r.err)
    decreases |steps|
  {
    var o := RunStep(c, steps[0], st);
    if o.err.Some? || |steps| == 1 {
      assert steps[..0] == [];
    } else {
      var r' := RunSteps(c, steps[1..], o.state);
      RunStepsLast(c, steps[1..], o.state);
      var pre := steps[..r'.ran];
      assert pre != [] && pre[0] == steps[0] && pre[1..] == steps[1..][..r'.ran - 1];
      assert steps[r'.ran] == steps[1..][r'.ran - 1];
    }
  }

  /** `checkBranch` succeeds exactly when GIT_BRANCH is set, `git rev-parse`
      exits with 0 and the branch it printed is configured. A non-zero exit
      fails before the branch is looked at; with GIT_BRANCH unset the branch
      becomes undefined and the check fails without spawning anything. The
      step touches neither the file system nor the log output. */
  lemma CheckBranchSpec(c: Ctx, st: State)
    ensures var o := RunStep(c, CheckBranch, st);
      (o.err.None? <==> c.env.Some? && c.oracle.revParse.code == 0 && Found(Resolved(c, st), c.options.branches)) &&
      (c.env.Some? && c.oracle.revParse.code != 0 ==> o.err == Some(GitExited(RevParse, c.oracle.revParse.code))) &&
      (c.env.None? ==> o == Outcome(st.(branch := None), Some(BranchNotConfigured(None)))) &&
      (o.err.None? ==> Found(o.state.branch, c.options.branches)) &&
      o.state.nodes == st.nodes && o.state.logged == st.logged
  {
  }

  /** With GIT_BRANCH unset the flush always fails at the first step, having
      spawned nothing and changed nothing but the branch. */
  lemma EnvUnsetFails(c: Ctx, st: State)
    requires c.env.None?
    ensures Pipeline(c, st) == Run(st.(branch := None), Some(BranchNotConfigured(None)), 1)
  {
  }

  /** A failed branch check ends the flush: nothing is cloned and the file
      system is as it was. */
  lemma GateFailureStops(c: Ctx, st: State)
    requires RunStep(c, CheckBranch, st).err.Some?
    ensures var r := Pipeline(c, st);
      r.ran == 1 && r.state.nodes == st.nodes &&
      r.state.calls == st.calls + StepCalls(c, CheckBranch) &&
      forall i :: |st.calls| <= i < |r.state.calls| ==> r.state.calls[i].argv == Argv(RevParse)
  {
  }

  /** What the flush needs of the file system: it is well formed, so is the
      tree a clone checks out, and the deploy folder does not exist yet but
      its parent directory does. */
  predicate Prepared(c: Ctx, st: State) {
    ValidTree(st.nodes) && ValidTree(c.oracle.checkout) && c.repoPath != [] &&
    IsDir(st.nodes, Dirname(c.repoPath)) && forall q :: q in st.nodes ==> !IsUnder(q, c.repoPath)
  }

  /** A successful clone creates the deploy folder holding the checked-out
      tree and changes nothing else; a failed one changes nothing. */
  lemma GitCloneSpec(c: Ctx, st: State)
    requires Prepared(c, st)
    ensures var o := RunStep(c, GitClone, st);
      ValidTree(o.state.nodes) &&
      (o.err.Some? ==> o.state.nodes == st.nodes && o.err == Some(GitExited(Clone(c.options.repository, c.repoPath), c.oracle.clone.code))) &&
      (o.err.None? ==>
         IsDir(o.state.nodes, c.repoPath) &&
         (forall q :: q in st.nodes ==> q in o.state.nodes && o.state.nodes[q] == st.nodes[q]) &&
         (forall q :: q in c.oracle.checkout ==> c.repoPath + q in o.state.nodes && o.state.nodes[c.repoPath + q] == c.oracle.checkout[q]))
  {
    GraftValid(st.nodes, c.repoPath, c.oracle.checkout);
  }

  /** A step other than the clone and the final removal keeps the tree well
      formed and keeps every directory. */
  lemma StepKeepsDir(c: Ctx, s: Step, st: State, d: Path)
    requires ValidTree(st.nodes) && IsDir(st.nodes, d)
    requires s != GitClone && s != RemoveRepository
    ensures ValidTree(RunStep(c, s, st).state.nodes) && IsDir(RunStep(c, s, st).state.nodes, d)
  {
    if s == RemoveFiles {
      Purge.PurgedKeeps(st.nodes, c.repoPath);
    } else if s == CopySources {
      Copy.CopyAllKeepsDirs(st.nodes, c.files);
    }
  }

  lemma {:induction false} RunStepsKeepDir(c: Ctx, steps: seq<Step>, st: State, d: Path)
    requires ValidTree(st.nodes) && IsDir(st.nodes, d)
    requires forall k :: 0 <= k < RunSteps(c, steps, st).ran ==> steps[k] != GitClone && steps[k] != RemoveRepository
    ensures ValidTree(RunSteps(c, steps, st).state.nodes) && IsDir(RunSteps(c, steps, st).state.nodes, d)
    decreases |steps|
  {
    if steps != [] {
      StepKeepsDir(c, steps[0], st, d);
      var o := RunStep(c, steps[0], st);
      if o.err.None? {
        var r := RunSteps(c, steps[1..], o.state);
        forall k | 0 <= k < r.ran ensures steps[1..][k] != GitClone && steps[1..][k] != RemoveRepository {
          assert steps[1..][k] == steps[k + 1];
        }
        RunStepsKeepDir(c, steps[1..], o.state, d);
      }
    }
  }

  lemma {:induction false} RunStepsKeepBranch(c: Ctx, steps: seq<Step>, st: State)
    requires forall k :: 0 <= k < |steps| ==> steps[k] != CheckBranch
    ensures RunSteps(c, steps, st).state.branch == st.branch
    decreases |steps|
  {
    if steps != [] {
      var o := RunStep(c, steps[0], st);
      if o.err.None? {
        assert forall k :: 0 <= k < |steps[1..]| ==> steps[1..][k] == steps[k + 1];
        RunStepsKeepBranch(c, steps[1..], o.state);
      }
    }
  }

  lemma RunStepsCons(c: Ctx, steps: seq<Step>, st: State)
    requires steps != []
    ensures var o := RunStep(c, steps[0], st);
      var r := RunSteps(c, steps[1..], o.state);
      RunSteps(c, steps, st) == if o.err.Some? then Run(o.state, o.err, 1) else Run(r.state, r.err, r.ran + 1)
  {
  }

  /** A run from step `i` is step `i` followed, when it succeeds, by the run from step `i + 1`. */
  lemma RunStepsFrom(c: Ctx, steps: seq<Step>, i: nat, st: State)
    requires i < |steps|
    ensures var o := RunStep(c, steps[i], st);
      var r := RunSteps(c, steps[i + 1..], o.state);
      RunSteps(c, steps[i..], st) == if o.err.Some? then Run(o.state, o.err, 1) else Run(r.state, r.err, r.ran + 1)
  {
    assert steps[i..][0] == steps[i] && steps[i..][1..] == steps[i + 1..];
    RunStepsCons(c, steps[i..], st);
  }

  /** The flush from `st0` has reached step `i` in state `st` without an
      error: what remains of it is the run of the steps from `i` on. */
  predicate Resumes(c: Ctx, st0: State, i: nat, st: State)
    requires i <= |Steps|
  {
    var r := RunSteps(c, Steps[i..], st);
    Pipeline(c, st0) == Run(r.state, r.err, r.ran + i)
  }

  lemma ResumesStart(c: Ctx, st0: State)
    ensures Resumes(c, st0, 0, st0)
  {
    assert Steps[0..] == Steps;
  }

  /** Running step `i` either ends the flush with its error or moves it on
      to step `i + 1`. */
  lemma ResumesStep(c: Ctx, st0: State, i: nat, st: State)
    requires i < |Steps| && Resumes(c, st0, i, st)
    ensures var o := RunStep(c, Steps[i], st);
      (o.err.Some? ==> Pipeline(c, st0) == Run(o.state, o.err, i + 1)) &&
      (o.err.None? ==> Resumes(c, st0, i + 1, o.state))
  {
    RunStepsFrom(c, Steps, i, st);
  }

  /** Past the last step, the flush has succeeded. */
  lemma ResumesEnd(c: Ctx, st0: State, st: State)
    requires Resumes(c, st0, |Steps|, st)
    ensures Pipeline(c, st0) == Run(st, None, |Steps|)
  {
    assert Steps[|Steps|..] == [];
  }

  /** The first two steps of a flush that got past them. */
  lemma PipelineHead(c: Ctx, st: State)
    requires Pipeline(c, st).ran >= 3
    ensures var o1 := RunStep(c, CheckBranch, st);
      var o2 := RunStep(c, GitClone, o1.state);
      var r := RunSteps(c, Steps[2..], o2.state);
      o1.err.None? && o2.err.None? &&
      Pipeline(c, st) == Run(r.state, r.err, r.ran + 2)
  {
    var s1 := Steps[1..];
    assert Steps[0] == CheckBranch && s1[0] == GitClone && s1[1..] == Steps[2..];
    var o1 := RunStep(c, CheckBranch, st);
    var o2 := RunStep(c, GitClone, o1.state);
    RunStepsCons(c, Steps, st);
    RunStepsCons(c, s1, o1.state);
  }

  /** The order of the steps, as the lemmas below use it. */
  lemma StepsShape()
    ensures |Steps| == 9 && Steps[0] == CheckBranch && Steps[1] == GitClone && Steps[8] == RemoveRepository
    ensures forall k :: 1 <= k < 9 ==> Steps[k] != CheckBranch
    ensures forall k :: 2 <= k < 8 ==> Steps[k] != GitClone && Steps[k] != RemoveRepository
    ensures forall k :: 0 <= k < 9 && Steps[k] == GitClone ==> k == 1
  {
  }

  /** Steps that neither clone nor remove the folder, then the removal:
      a run of them that fails keeps every directory; one that succeeds
      leaves nothing below the deploy folder. */
  lemma {:induction false} TailOutcome(c: Ctx, steps: seq<Step>, st: State)
    requires ValidTree(st.nodes) && IsDir(st.nodes, c.repoPath) && c.repoPath != []
    requires steps != [] && steps[|steps| - 1] == RemoveRepository
    requires forall k :: 0 <= k < |steps| - 1 ==> steps[k] != GitClone && steps[k] != RemoveRepository
    ensures var r := RunSteps(c, steps, st);
      ValidTree(r.state.nodes) &&
      (r.err.Some? ==> r.ran < |steps| && IsDir(r.state.nodes, c.repoPath)) &&
      (r.err.None? ==> forall q :: q in r.state.nodes ==> !IsUnder(q, c.repoPath))
    decreases |steps|
  {
    var rest := steps[1..];
    assert forall k :: 0 <= k < |rest| ==> rest[k] == steps[k + 1];
    RunStepsCons(c, steps, st);
    if |steps| == 1 {
      assert steps[0] == RemoveRepository;
      RemoveTreeValid(st.nodes, c.repoPath);
    } else {
      StepKeepsDir(c, steps[0], st, c.repoPath);
      var o := RunStep(c, steps[0], st);
      if o.err.None? {
        TailOutcome(c, rest, o.state);
      }
    }
  }

  /** A successful flush deployed from a configured branch. */
  lemma PipelineSuccessBranch(c: Ctx, st: State)
    requires Pipeline(c, st).err.None?
    ensures Found(Pipeline(c, st).state.branch, c.options.branches)
  {
    StepsShape();
    var o1 := RunStep(c, CheckBranch, st);
    RunStepsCons(c, Steps, st);
    CheckBranchSpec(c, st);
    assert forall k :: 0 <= k < |Steps[1..]| ==> Steps[1..][k] == Steps[k + 1];
    RunStepsKeepBranch(c, Steps[1..], o1.state);
  }

  /** The tasks after the clone: none clones or removes but the last, which
      removes the folder. */
  lemma TailSteps()
    ensures var rest := Steps[2..];
      |rest| == 7 && rest[6] == RemoveRepository &&
      forall k :: 0 <= k < 6 ==> rest[k] != GitClone && rest[k] != RemoveRepository
  {
  }

  /** A flush that got past the clone continues, in a well-formed tree
      holding the deploy folder as a directory, with the tasks after it. */
  lemma AfterClone(c: Ctx, st: State)
    requires Prepared(c, st) && Pipeline(c, st).ran >= 3
    ensures var o1 := RunStep(c, CheckBranch, st);
      var o2 := RunStep(c, GitClone, o1.state);
      var r := RunSteps(c, Steps[2..], o2.state);
      Pipeline(c, st) == Run(r.state, r.err, r.ran + 2) &&
      ValidTree(o2.state.nodes) && IsDir(o2.state.nodes, c.repoPath)
  {
    PipelineHead(c, st);
    var o1 := RunStep(c, CheckBranch, st);
    assert o1.state.nodes == st.nodes;
    GitCloneSpec(c, o1.state);
  }

  /** A successful flush removed the deploy folder and everything in it,
      leaving the file system well formed. */
  lemma PipelineSuccessFolder(c: Ctx, st: State)
    requires Prepared(c, st)
    requires Pipeline(c, st).err.None?
    ensures ValidTree(Pipeline(c, st).state.nodes)
    ensures forall q :: q in Pipeline(c, st).state.nodes ==> !IsUnder(q, c.repoPath)
  {
    StepsShape();
    AfterClone(c, st);
    TailSteps();
    var o1 := RunStep(c, CheckBranch, st);
    var o2 := RunStep(c, GitClone, o1.state);
    TailOutcome(c, Steps[2..], o2.state);
  }

  /** A successful flush deployed from a configured branch, spawned the full
      trace, and removed the deploy folder, leaving the file system well formed. */
  lemma PipelineSuccess(c: Ctx, st: State)
    requires Prepared(c, st)
    requires Pipeline(c, st).err.None?
    ensures var r := Pipeline(c, st);
      Found(r.state.branch, c.options.branches) &&
      r.state.calls == st.calls + FullTrace(c) &&
      ValidTree(r.state.nodes) &&
      forall q :: q in r.state.nodes ==> !IsUnder(q, c.repoPath)
  {
    PipelineCalls(c, st);
    PipelineSuccessBranch(c, st);
    PipelineSuccessFolder(c, st);
  }

  /** A flush that fails after the clone leaves the deploy folder in place:
      the final removal runs only when everything before it succeeded, and
      it never fails itself. */
  lemma PipelineFailureKeepsFolder(c: Ctx, st: State)
    requires Prepared(c, st)
    requires Pipeline(c, st).err.Some? && Pipeline(c, st).ran >= 3
    ensures Pipeline(c, st).ran <= 8
    ensures ValidTree(Pipeline(c, st).state.nodes) && IsDir(Pipeline(c, st).state.nodes, c.repoPath)
  {
    AfterClone(c, st);
    TailSteps();
    var o1 := RunStep(c, CheckBranch, st);
    var o2 := RunStep(c, GitClone, o1.state);
    TailOutcome(c, Steps[2..], o2.state);
  }

  /** The state without the stray `message` global. */
  function Forget(st: State): State {
    st.(logged := None)
  }

  /** One task, run with two different `git log` outputs, differs at most in
      the stray variable. */
  lemma StepLogOutputIgnored(c: Ctx, s: Step, st: State, out: Option<string>, st': State)
    requires Forget(st') == Forget(st)
    ensures var c' := c.(oracle := c.oracle.(log := Exit(c.oracle.log.code, out)));
      var o, o' := RunStep(c, s, st), RunStep(c', s, st');
      Forget(o'.state) == Forget(o.state) && o'.err == o.err
  {
    assert st'.nodes == st.nodes && st'.calls == st.calls && st'.branch == st.branch by {
      assert Forget(st').nodes == Forget(st).nodes;
      assert Forget(st').calls == Forget(st).calls;
      assert Forget(st').branch == Forget(st).branch;
    }
    match s
    case CheckBranch =>
    case GitClone =>
    case RemoveFiles =>
    case CopySources =>
    case GitAdd =>
    case GitLog =>
    case GitCommit =>
    case GitPush =>
    case RemoveRepository =>
  }

  /** What `git log` prints is stored in a variable nothing reads: two
      flushes that differ only in that output, and in the stray variable's
      earlier value, spawn the same processes, leave the same files and
      branch, and end the same way. */
  lemma {:induction false} LogOutputIgnored(c: Ctx, steps: seq<Step>, st: State, out: Option<string>, st': State)
    requires Forget(st') == Forget(st)
    ensures var c' := c.(oracle := c.oracle.(log := Exit(c.oracle.log.code, out)));
      var r, r' := RunSteps(c, steps, st), RunSteps(c', steps, st');
      Forget(r'.state) == Forget(r.state) && r'.err == r.err && r'.ran == r.ran
    decreases |steps|
  {
    var c' := c.(oracle := c.oracle.(log := Exit(c.oracle.log.code, out)));
    if steps != [] {
      var o, o' := RunStep(c, steps[0], st), RunStep(c', steps[0], st');
      StepLogOutputIgnored(c, steps[0], st, out, st');
      if o.err.None? {
        LogOutputIgnored(c, steps[1..], o.state, out, o'.state);
      }
    }
  }
}
