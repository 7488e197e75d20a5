/**
 * The `removeFiles` step: `clean(folder)` walks the deploy folder, unlinking
 * every entry that `lstat` does not report as a directory and descending into
 * every directory except those named ".git". Directories themselves are never
 * removed.
 */
module Purge {
  import opened Wrappers
  import opened Paths
  import opened Fs

  /** No ".git" directory lies between `root` and `p`: none of the segments
      after `root`, other than `p`'s own name, is ".git". */
  predicate OutsideGit(root: Path, p: Path) {
    forall i :: |root| <= i < |p| - 1 ==> p[i] != ".git"
  }

  /** The nodes a walk from `root` unlinks. */
  predicate Doomed(t: Tree, root: Path, p: Path)
    requires p in t
  {
    |root| < |p| && p[..|root|] == root && !t[p].Dir? && OutsideGit(root, p)
  }

  /** The tree after `clean(root)`: the specification of `Clean`. */
  function Purged(t: Tree, root: Path): (r: Tree)
    ensures r.Keys <= t.Keys
  {
    map p | p in t && !Doomed(t, root, p) :: t[p]
  }

  /** The tree after the walk of `root` has handled the entries named in `done`. */
  function PurgedBelow(t: Tree, root: Path, done: seq<string>): Tree {
    map p | p in t && !(Doomed(t, root, p) && p[|root|] in done) :: t[p]
  }

  /** A node the walk unlinks lies below an entry of `root`. */
  lemma DoomedChild(t: Tree, root: Path, p: Path)
    requires ValidTree(t) && p in t && Doomed(t, root, p)
    ensures root + [p[|root|]] in t
  {
    Ancestors(t, p, |root| + 1);
    assert p[..|root| + 1] == root + [p[|root|]];
  }

  /** Once every entry of `root` is handled, the walk of `root` is complete. */
  lemma PurgedBelowAll(t: Tree, root: Path, names: seq<string>)
    requires ValidTree(t)
    requires forall n :: n in names <==> root + [n] in t
    ensures PurgedBelow(t, root, names) == Purged(t, root)
  {
    forall p | p in t && Doomed(t, root, p) ensures p[|root|] in names {
      DoomedChild(t, root, p);
    }
  }

  /** Skipping the ".git" directory of `root` leaves everything below it. */
  lemma PurgedBelowGit(t: Tree, root: Path, done: seq<string>)
    requires IsDir(t, root + [".git"])
    ensures PurgedBelow(t, root, done + [".git"]) == PurgedBelow(t, root, done)
  {
    forall p | p in t && |p| == |root| + 1 && p[..|root|] == root
      ensures p[|root|] == ".git" ==> t[p].Dir?
    {
      assert p == p[..|root|] + [p[|root|]];
    }
  }

  /** Unlinking the entry `n` of `root`, a file or a link, handles it: no
      node can live below a non-directory. */
  lemma PurgedBelowUnlink(t: Tree, root: Path, done: seq<string>, n: string)
    requires ValidTree(t)
    requires root + [n] in t && !t[root + [n]].Dir?
    requires n !in done
    ensures root + [n] in PurgedBelow(t, root, done)
    ensures PurgedBelow(t, root, done) - {root + [n]} == PurgedBelow(t, root, done + [n])
  {
    var child := root + [n];
    var cur := PurgedBelow(t, root, done);
    var next := PurgedBelow(t, root, done + [n]);
    assert child[..|root|] == root && child[|root|] == n;
    assert Doomed(t, root, child);
    forall p | p in t && |p| > |root| && p[..|root|] == root && p[|root|] == n
      ensures p == child || t[p].Dir?
    {
      assert p[..|root| + 1] == p[..|root|] + [p[|root|]] == child;
      if |p| > |child| {
        NothingBelowFile(t, child, p);
      } else {
        assert p == p[..|root| + 1];
      }
    }
    forall p ensures p in cur - {child} <==> p in next {
    }
  }

  /** Cleaning the entry `n` of `root`, a directory not named ".git", handles it. */
  lemma PurgedBelowDir(t: Tree, root: Path, done: seq<string>, n: string)
    requires root + [n] in t && t[root + [n]].Dir?
    requires n != ".git" && n !in done
    ensures root + [n] in PurgedBelow(t, root, done)
    ensures Purged(PurgedBelow(t, root, done), root + [n]) == PurgedBelow(t, root, done + [n])
  {
    var child := root + [n];
    var cur := PurgedBelow(t, root, done);
    assert child[..|root|] == root && child[|root|] == n;
    forall p | p in cur
      ensures Doomed(cur, child, p) <==> Doomed(t, root, p) && p[|root|] == n
    {
      assert cur[p] == t[p];
      if |p| > |root| && p[..|root|] == root && p[|root|] == n {
        assert p[..|root| + 1] == p[..|root|] + [p[|root|]] == child;
        if |p| == |root| + 1 {
          assert p == child;
        } else {
          assert p[..|child|] == child;
          assert OutsideGit(root, p) <==> OutsideGit(child, p);
        }
      }
      if Doomed(cur, child, p) {
        assert p[..|child|][..|root|] == p[..|root|];
        assert p[..|child|][|root|] == p[|root|];
      }
    }
  }

  /** The walk keeps every directory and every node below a ".git" directory,
      keeps everything outside `root`, changes no node it keeps, and keeps the
      tree well formed. */
  lemma PurgedKeeps(t: Tree, root: Path)
    ensures forall p :: p in Purged(t, root) ==> p in t && Purged(t, root)[p] == t[p]
    ensures forall p :: IsDir(t, p) ==> IsDir(Purged(t, root), p)
    ensures forall p :: p in t && !IsUnder(p, root) ==> p in Purged(t, root)
    ensures forall p, i :: p in t && IsUnder(p, root) && |root| <= i < |p| - 1 && p[i] == ".git" ==>
              p in Purged(t, root)
    ensures ValidTree(t) ==> ValidTree(Purged(t, root))
  {
  }

  /** After the walk, the only non-directories strictly below `root` are
      inside a ".git" directory. */
  lemma PurgedLeavesOnlyGit(t: Tree, root: Path, p: Path)
    requires p in Purged(t, root) && IsUnder(p, root) && p != root
    requires !Purged(t, root)[p].Dir?
    ensures exists i :: |root| <= i < |p| - 1 && p[i] == ".git"
  {
  }

  /** A second walk changes nothing. */
  lemma PurgedIdempotent(t: Tree, root: Path)
    ensures Purged(Purged(t, root), root) == Purged(t, root)
  {
  }

  /** The deepest path in a finite set of paths. */
  ghost function MaxLength(s: set<Path>): (m: nat)
    ensures forall p :: p in s ==> |p| <= m
    decreases s
  {
    if s == {} then 0
    else
      var p :| p in s;
      var m := MaxLength(s - {p});
      if |p| > m then |p| else m
  }

  /** `clean(folder)`: reads the entries of `folder` and, for each in turn,
      unlinks it or, when it is a directory not named ".git", cleans it.
      `bound` is a depth no path in the file system exceeds. */
  method Clean(fs: FileSystem, folder: Path, ghost bound: nat) returns (err: Option<FsError>)
    requires fs.Valid()
    requires forall p :: p in fs.nodes ==> |p| <= bound
    modifies fs
    decreases bound - |folder|
    ensures fs.Valid()
    ensures err == ReaddirError(old(fs.nodes), folder)
    ensures fs.nodes == if err.None? then Purged(old(fs.nodes), folder) else old(fs.nodes)
  {
    var entries := fs.ReadDir(folder);
    if entries.Err? {
      return Some(entries.error);
    }
    var names := entries.value;
    ghost var t := fs.nodes;
    var i := 0;
    while i < |names|
      invariant 0 <= i <= |names|
      invariant fs.Valid()
      invariant fs.nodes == PurgedBelow(t, folder, names[..i])
    {
      var name := names[i];
      var child := folder + [name];
      assert name !in names[..i];
      assert names[..i + 1] == names[..i] + [name];
      var isDir := fs.LstatIsDir(child);
      assert isDir == Ok(t[child].Dir?);
      if isDir.value {
        if name != ".git" {
          PurgedBelowDir(t, folder, names[..i], name);
          var e := Clean(fs, child, bound);
          assert e.None?;
        } else {
          PurgedBelowGit(t, folder, names[..i]);
        }
      } else {
        PurgedBelowUnlink(t, folder, names[..i], name);
        var e := fs.Unlink(child);
        assert e.None?;
      }
      i := i + 1;
    }
    assert names[..i] == names;
    PurgedBelowAll(t, folder, names);
    return None;
  }
}
