/**
 * The `git` executable as the plugin sees it: each spawn is recorded with its
 * argument vector and working directory, and answers with an exit code and,
 * for the commands whose output the plugin reads, the trimmed text it printed.
 * What git answers is decided outside the model, by an oracle.
 */
module GitCli {
  import opened Wrappers
  import opened Paths
  import opened Fs

  /** A finished process: its exit code, and its trimmed standard output when
      it printed any. */
  datatype Exit = Exit(code: int, stdout: Option<string>)

  /** The git commands the plugin runs. */
  datatype Command =
    | RevParse
    | Clone(repository: string, dir: Path)
    | Add
    | Log
    | Commit(message: string)
    | Push

  /** The argument vector passed to `spawn('git', ...)`. */
  function Argv(c: Command): (r: seq<string>)
    ensures |r| >= 1
    ensures r[0] == "clone" <==> c.Clone?
    ensures r[0] == "commit" <==> c.Commit?
    ensures c.Clone? ==> |r| == 3 && r[1] == c.repository
    ensures c.Commit? ==> r[|r| - 1] == c.message
  {
    match c
    case RevParse => ["rev-parse", "--abbrev-ref", "HEAD"]
    case Clone(repository, dir) => ["clone", repository, Show(dir)]
    case Add => ["add", "--all", "."]
    case Log => ["log", "-1", "--oneline"]
    case Commit(message) => ["commit", "-m", message]
    case Push => ["push"]
  }

  /** One spawn: the arguments and the `cwd` option (None: the process's own). */
  datatype Invocation = Invocation(argv: seq<string>, cwd: Option<Path>)

  /** How git answers each command in one run; `checkout` is the tree that a
      successful clone writes into its target directory. */
  datatype Oracle = Oracle(
    revParse: Exit, clone: Exit, checkout: Tree,
    add: Exit, log: Exit, commit: Exit, push: Exit)

  function Answer(o: Oracle, c: Command): Exit {
    match c
    case RevParse => o.revParse
    case Clone(_, _) => o.clone
    case Add => o.add
    case Log => o.log
    case Commit(_) => o.commit
    case Push => o.push
  }

  /** The git executable, with the record of every spawn made so far. */
  class Git {
    const oracle: Oracle
    var calls: seq<Invocation>

    constructor (o: Oracle)
      ensures oracle == o && calls == []
    {
      oracle := o;
      calls := [];
    }

    /** `spawn('git', Argv(c), {cwd})`, waited for until it exits. */
    method Spawn(c: Command, cwd: Option<Path>) returns (e: Exit)
      modifies this
      ensures calls == old(calls) + [Invocation(Argv(c), cwd)]
      ensures e == Answer(oracle, c)
    {
      calls := calls + [Invocation(Argv(c), cwd)];
      e := Answer(oracle, c);
    }
  }
}
