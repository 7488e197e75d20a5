/**
 * The host file system as a tree addressed by paths: a finite map from
 * absolute paths to nodes, with the `fs`, `mkdirp`, `rimraf` calls the plugin
 * makes. Each call is a function on the tree (its specification) and a method
 * of the `FileSystem` object that applies it in place.
 */
module Fs {
  import opened Wrappers
  import opened Paths

  type Content = seq<bv8>

  /** What `lstat` sees: a symbolic link is its own kind of node, not its target. */
  datatype Node = Dir | File(content: Content) | Link(target: Path)

  datatype FsError = ENOENT | ENOTDIR | EISDIR | EEXIST

  datatype Result<T> = Ok(value: T) | Err(error: FsError)

  type Tree = map<Path, Node>

  predicate IsUnder(p: Path, root: Path) {
    IsPrefix(root, p)
  }

  predicate IsDir(t: Tree, p: Path) {
    p in t && t[p].Dir?
  }

  /** The root exists and is a directory, and every other node lives in a directory. */
  predicate ValidTree(t: Tree) {
    IsDir(t, []) &&
    forall p :: p in t && p != [] ==> IsDir(t, Dirname(p))
  }

  /** Every proper ancestor of a node is a directory. */
  lemma {:induction false} Ancestors(t: Tree, p: Path, k: nat)
    requires ValidTree(t) && p in t && k <= |p|
    ensures p[..k] in t
    ensures k < |p| ==> t[p[..k]].Dir?
  {
    if k < |p| {
      var q := Dirname(p);
      assert q[..k] == p[..k];
      Ancestors(t, q, k);
    } else {
      assert p[..k] == p;
    }
  }

  /** No node lies below a file or a link. */
  lemma NothingBelowFile(t: Tree, q: Path, p: Path)
    requires ValidTree(t) && q in t && !t[q].Dir?
    requires p in t && |p| > |q|
    ensures p[..|q|] != q
  {
    Ancestors(t, p, |q|);
  }

  /** `fs.readFileSync`: follows a link one level, to a regular file. */
  function Read(t: Tree, p: Path): (r: Result<Content>)
    ensures r.Ok? ==> p in t && !t[p].Dir?
  {
    if p !in t then Err(ENOENT)
    else match t[p]
      case Dir => Err(EISDIR)
      case File(c) => Ok(c)
      case Link(q) =>
        if q in t && t[q].File? then Ok(t[q].content)
        else if IsDir(t, q) then Err(EISDIR)
        else Err(ENOENT)
  }

  /** `fs.writeFileSync`: replaces a regular file (through a link one level),
      or creates one inside an existing directory. */
  function Write(t: Tree, p: Path, c: Content): (r: Result<Tree>)
    ensures r.Ok? ==> p in r.value
  {
    if p in t then
      match t[p]
      case Dir => Err(EISDIR)
      case File(_) => Ok(t[p := File(c)])
      case Link(q) =>
        if q in t && t[q].File? then Ok(t[q := File(c)])
        else if IsDir(t, q) then Err(EISDIR)
        else Err(ENOENT)
    else if p != [] && IsDir(t, Dirname(p)) then Ok(t[p := File(c)])
    else if p != [] && Dirname(p) in t then Err(ENOTDIR)
    else Err(ENOENT)
  }

  /** The directories `mkdirp` needs: `dir` and all its ancestors. */
  function Prefixes(dir: Path): set<Path> {
    set k | 0 <= k <= |dir| :: dir[..k]
  }

  /** `mkdirp.sync(dir)`: creates every missing ancestor and `dir` itself;
      fails, changing nothing, when one of them exists and is not a directory. */
  function MakeDirs(t: Tree, dir: Path): (r: Result<Tree>)
    ensures r.Err? ==> r.error == EEXIST || r.error == ENOTDIR
  {
    if dir in t && !t[dir].Dir? then Err(EEXIST)
    else if exists k :: 0 <= k < |dir| && dir[..k] in t && !t[dir[..k]].Dir? then Err(ENOTDIR)
    else Ok(t + map q | q in Prefixes(dir) && q !in t :: Dir)
  }

  /** `rimraf(p)`: removes `p` and everything below it; nothing if it is absent. */
  function RemoveTree(t: Tree, p: Path): (r: Tree)
    ensures r.Keys <= t.Keys
    ensures forall q :: q in r ==> !IsUnder(q, p)
  {
    map q | q in t && !IsUnder(q, p) :: t[q]
  }

  /** The tree `sub` (rooted at []) moved to `at`. */
  function Grafted(at: Path, sub: Tree): (g: Tree)
    ensures forall q :: q in sub ==> at + q in g && g[at + q] == sub[q]
    ensures forall k :: k in g ==> IsUnder(k, at) && k[|at|..] in sub && g[k] == sub[k[|at|..]]
  {
    assert forall q :: (at + q)[|at|..] == q;
    map q | q in sub :: at + q := sub[q]
  }

  /** The tree `sub` placed at `at`, as a clone writes it. */
  function Graft(t: Tree, at: Path, sub: Tree): Tree {
    t + Grafted(at, sub)
  }

  /** `fs.readdirSync` fails on anything that is not a directory. */
  function ReaddirError(t: Tree, p: Path): Option<FsError> {
    if p !in t then Some(ENOENT)
    else if !t[p].Dir? then Some(ENOTDIR)
    else None
  }

  /** A successful `mkdirp` makes `dir` and all its ancestors directories,
      keeps every node that was there, and keeps the tree well formed. */
  lemma MakeDirsSpec(t: Tree, dir: Path)
    requires ValidTree(t)
    ensures MakeDirs(t, dir).Ok? <==> forall k :: 0 <= k <= |dir| && dir[..k] in t ==> t[dir[..k]].Dir?
    ensures MakeDirs(t, dir).Ok? ==>
      var t' := MakeDirs(t, dir).value;
      ValidTree(t') &&
      (forall k :: 0 <= k <= |dir| ==> IsDir(t', dir[..k])) &&
      (forall q :: q in t ==> q in t' && t'[q] == t[q]) &&
      (forall q :: q in t' && q !in t ==> t'[q].Dir? && q in Prefixes(dir))
  {
    assert dir[..|dir|] == dir;
    if MakeDirs(t, dir).Ok? {
      var t' := MakeDirs(t, dir).value;
      forall k | 0 <= k <= |dir| ensures IsDir(t', dir[..k]) {
        assert dir[..k] in Prefixes(dir);
      }
      forall p | p in t' && p != [] ensures IsDir(t', Dirname(p)) {
        if p !in t {
          var k :| 0 <= k <= |dir| && p == dir[..k];
          assert Dirname(p) == dir[..k - 1];
        }
      }
    }
  }

  /** A successful write leaves a regular file with that content readable at
      the path, keeps every directory, adds at most the path itself and keeps
      the tree well formed. */
  lemma WriteSpec(t: Tree, p: Path, c: Content)
    requires ValidTree(t)
    ensures Write(t, p, c).Ok? ==>
      var t' := Write(t, p, c).value;
      ValidTree(t') && Read(t', p) == Ok(c) &&
      (forall q :: IsDir(t, q) ==> IsDir(t', q)) &&
      t'.Keys == t.Keys + {p}
  {
    if Write(t, p, c).Ok? {
      var t' := Write(t, p, c).value;
      forall q | q in t' && q != [] ensures IsDir(t', Dirname(q)) {
        assert IsDir(t, Dirname(q)) || q == p;
      }
    }
  }

  /** Removing a subtree other than the root keeps the tree well formed. */
  lemma RemoveTreeValid(t: Tree, p: Path)
    requires ValidTree(t) && p != []
    ensures ValidTree(RemoveTree(t, p))
    ensures forall q :: q in RemoveTree(t, p) <==> q in t && !IsUnder(q, p)
  {
    var r := RemoveTree(t, p);
    forall q | q in r && q != [] ensures IsDir(r, Dirname(q)) {
    }
  }

  /** Placing a well-formed tree at a fresh path below a directory keeps the
      whole tree well formed, makes `at` a directory and changes nothing else. */
  lemma GraftValid(t: Tree, at: Path, sub: Tree)
    requires ValidTree(t) && ValidTree(sub)
    requires at != [] && IsDir(t, Dirname(at))
    requires forall q :: q in t ==> !IsUnder(q, at)
    ensures var m := Graft(t, at, sub);
      ValidTree(m) && IsDir(m, at) &&
      (forall q :: q in t ==> q in m && m[q] == t[q]) &&
      (forall q :: q in sub ==> at + q in m && m[at + q] == sub[q])
  {
    var g := Grafted(at, sub);
    var m := Graft(t, at, sub);
    assert at + [] == at;
    forall q | q in t ensures q !in g {
      assert !IsUnder(q, at);
    }
    forall q | q in m && q != [] ensures IsDir(m, Dirname(q)) {
      if q in g {
        GraftedParent(t, at, sub, q);
      }
    }
  }

  /** A grafted node's parent is `at`'s parent or a grafted directory. */
  lemma GraftedParent(t: Tree, at: Path, sub: Tree, q: Path)
    requires ValidTree(sub) && at != [] && IsDir(t, Dirname(at))
    requires q in Grafted(at, sub)
    ensures IsDir(Graft(t, at, sub), Dirname(q))
  {
    var g := Grafted(at, sub);
    var r := q[|at|..];
    assert q == at + r && r in sub;
    if r == [] {
      assert Dirname(q) == Dirname(at);
    } else {
      assert IsDir(sub, Dirname(r));
      assert Dirname(q) == at + Dirname(r);
      assert g[at + Dirname(r)] == sub[Dirname(r)];
    }
  }

  /** The host file system, changed in place by the plugin's calls. */
  class FileSystem {
    var nodes: Tree

    ghost predicate Valid()
      reads this
    {
      ValidTree(nodes)
    }

    constructor (t: Tree)
      requires ValidTree(t)
      ensures Valid() && nodes == t
    {
      nodes := t;
    }

    /** `fs.readdirSync(folder)`: the names of the entries of a directory,
        each once, in an order the model leaves open. */
    method ReadDir(folder: Path) returns (r: Result<seq<string>>)
      ensures r.Err? <==> ReaddirError(nodes, folder).Some?
      ensures r.Err? ==> r.error == ReaddirError(nodes, folder).value
      ensures r.Ok? ==> forall n :: n in r.value <==> folder + [n] in nodes
      ensures r.Ok? ==> forall i, j :: 0 <= i < j < |r.value| ==> r.value[i] != r.value[j]
    {
      var e := ReaddirError(nodes, folder);
      if e.Some? {
        return Err(e.value);
      }
      var pending := set p | p in nodes && |p| == |folder| + 1 && p[..|folder|] == folder :: p[|folder|];
      forall n ensures n in pending <==> folder + [n] in nodes {
        var p := folder + [n];
        assert p[..|folder|] == folder && p[|folder|] == n;
        if n in pending {
          var p' :| p' in nodes && |p'| == |folder| + 1 && p'[..|folder|] == folder && p'[|folder|] == n;
          assert p' == p;
        }
      }
      var names: seq<string> := [];
      while pending != {}
        invariant forall n :: n in names || n in pending <==> folder + [n] in nodes
        invariant forall n :: n in names ==> n !in pending
        invariant forall i, j :: 0 <= i < j < |names| ==> names[i] != names[j]
        decreases |pending|
      {
        var n :| n in pending;
        names := names + [n];
        pending := pending - {n};
      }
      return Ok(names);
    }

    /** `fs.lstatSync(p).isDirectory()`: links are not followed. */
    method LstatIsDir(p: Path) returns (r: Result<bool>)
      ensures r == if p in nodes then Ok(nodes[p].Dir?) else Err(ENOENT)
    {
      if p !in nodes {
        return Err(ENOENT);
      }
      return Ok(nodes[p].Dir?);
    }

    /** `fs.unlinkSync(p)`: removes a file or link; a directory is refused. */
    method Unlink(p: Path) returns (err: Option<FsError>)
      requires Valid()
      modifies this
      ensures Valid()
      ensures err == (if p !in old(nodes) then Some(ENOENT)
                      else if old(nodes)[p].Dir? then Some(EISDIR) else None)
      ensures nodes == if err.None? then old(nodes) - {p} else old(nodes)
    {
      if p !in nodes {
        return Some(ENOENT);
      }
      if nodes[p].Dir? {
        return Some(EISDIR);
      }
      forall q | q in nodes && q != [] && q != p ensures Dirname(q) != p {
        assert IsDir(nodes, Dirname(q));
      }
      nodes := nodes - {p};
      return None;
    }

    method ReadFile(p: Path) returns (r: Result<Content>)
      ensures r == Read(nodes, p)
    {
      r := Read(nodes, p);
    }

    method WriteFile(p: Path, c: Content) returns (err: Option<FsError>)
      requires Valid()
      modifies this
      ensures Valid()
      ensures var w := Write(old(nodes), p, c);
              err == (if w.Ok? then None else Some(w.error)) &&
              nodes == (if w.Ok? then w.value else old(nodes))
    {
      WriteSpec(nodes, p, c);
      var w := Write(nodes, p, c);
      if w.Err? {
        return Some(w.error);
      }
      nodes := w.value;
      return None;
    }

    method Mkdirp(dir: Path) returns (err: Option<FsError>)
      requires Valid()
      modifies this
      ensures Valid()
      ensures var m := MakeDirs(old(nodes), dir);
              err == (if m.Ok? then None else Some(m.error)) &&
              nodes == (if m.Ok? then m.value else old(nodes))
    {
      MakeDirsSpec(nodes, dir);
      var m := MakeDirs(nodes, dir);
      if m.Err? {
        return Some(m.error);
      }
      nodes := m.value;
      return None;
    }

    method Rimraf(p: Path)
      requires Valid() && p != []
      modifies this
      ensures Valid()
      ensures nodes == RemoveTree(old(nodes), p)
    {
      RemoveTreeValid(nodes, p);
      nodes := RemoveTree(nodes, p);
    }

    method Mount(at: Path, sub: Tree)
      requires Valid() && ValidTree(sub)
      requires at != [] && IsDir(nodes, Dirname(at))
      requires forall q :: q in nodes ==> !IsUnder(q, at)
      modifies this
      ensures Valid()
      ensures nodes == Graft(old(nodes), at, sub)
    {
      GraftValid(nodes, at, sub);
      nodes := Graft(nodes, at, sub);
    }
  }
}
