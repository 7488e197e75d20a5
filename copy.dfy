/**
 * The `copySources` step: for each collected record, in order, `mkdirp` the
 * destination's directory, read the source and write it to the destination.
 * The first error thrown ends the step with that error.
 */
module Copy {
  import opened Wrappers
  import opened Paths
  import opened Fs

  /** One element of the plugin's `files` array: a source file and where it goes. */
  datatype Record = Record(path: Path, dest: Path)

  /** The tree after (part of) the copy, and the error that stopped it, if any. */
  datatype Copied = Copied(nodes: Tree, err: Option<FsError>)

  /** One iteration of the loop: `mkdirp.sync(dirname(dest))`, then
      `fs.writeFileSync(dest, fs.readFileSync(path))`. */
  function CopyOne(t: Tree, r: Record): (c: Copied)
    ensures c.err.None? ==> r.dest in c.nodes
  {
    match MakeDirs(t, Dirname(r.dest))
    case Err(e) => Copied(t, Some(e))
    case Ok(t1) =>
      match Read(t1, r.path)
      case Err(e) => Copied(t1, Some(e))
      case Ok(c) =>
        match Write(t1, r.dest, c)
        case Err(e) => Copied(t1, Some(e))
        case Ok(t2) => Copied(t2, None)
  }

  /** The whole loop: records in order, stopping at the first error. */
  function CopyAll(t: Tree, rs: seq<Record>): (c: Copied)
    ensures c.err.Some? ==> rs != []
    ensures c.err.None? && rs != [] ==> rs[|rs| - 1].dest in c.nodes
    decreases |rs|
  {
    if rs == [] then Copied(t, None)
    else
      var c := CopyOne(t, rs[0]);
      if c.err.Some? then c else CopyAll(c.nodes, rs[1..])
  }

  predicate NotLink(t: Tree, p: Path) {
    p in t ==> !t[p].Link?
  }

  /** One copy keeps the tree well formed and every directory in it; when
      the destination is not a link it changes no node but the destination
      and adds only directories besides it; and when it succeeds, the
      destination's directories exist and the destination reads back what
      the source held before the copy. */
  lemma CopyOneSpec(t: Tree, r: Record)
    requires ValidTree(t)
    ensures var c := CopyOne(t, r);
      ValidTree(c.nodes) &&
      (forall q :: IsDir(t, q) ==> IsDir(c.nodes, q)) &&
      (NotLink(t, r.dest) ==>
         (forall q :: q in t && q != r.dest ==> q in c.nodes && c.nodes[q] == t[q]) &&
         (forall q :: q in c.nodes && q !in t && q != r.dest ==> c.nodes[q].Dir?) &&
         NotLink(c.nodes, r.dest)) &&
      (c.err.None? ==>
         Read(t, r.path).Ok? && Read(c.nodes, r.dest) == Read(t, r.path) &&
         forall k :: 0 <= k < |r.dest| ==> IsDir(c.nodes, r.dest[..k]))
  {
    var d := Dirname(r.dest);
    MakeDirsSpec(t, d);
    if MakeDirs(t, d).Ok? {
      var t1 := MakeDirs(t, d).value;
      var rd := Read(t1, r.path);
      if rd.Ok? {
        assert Read(t, r.path) == rd;
        WriteSpec(t1, r.dest, rd.value);
        if Write(t1, r.dest, rd.value).Ok? {
          var t2 := Write(t1, r.dest, rd.value).value;
          assert r.dest != [];
          forall k | 0 <= k < |r.dest| ensures IsDir(t2, r.dest[..k]) {
            assert r.dest[..k] == d[..k];
          }
        }
      }
    }
  }

  /** The copy keeps the tree well formed and every directory in it. */
  lemma {:induction false} CopyAllKeepsDirs(t: Tree, rs: seq<Record>)
    requires ValidTree(t)
    ensures ValidTree(CopyAll(t, rs).nodes)
    ensures forall q :: IsDir(t, q) ==> IsDir(CopyAll(t, rs).nodes, q)
    decreases |rs|
  {
    if rs != [] {
      CopyOneSpec(t, rs[0]);
      var c := CopyOne(t, rs[0]);
      if c.err.None? {
        CopyAllKeepsDirs(c.nodes, rs[1..]);
      }
    }
  }

  /** After a successful copy, the directories of every record's destination
      exist, whatever the later records did. */
  lemma {:induction false} CopyAllDirs(t: Tree, rs: seq<Record>)
    requires ValidTree(t) && CopyAll(t, rs).err.None?
    ensures forall j, k :: 0 <= j < |rs| && 0 <= k < |rs[j].dest| ==> IsDir(CopyAll(t, rs).nodes, rs[j].dest[..k])
    decreases |rs|
  {
    if rs != [] {
      CopyOneSpec(t, rs[0]);
      var c := CopyOne(t, rs[0]);
      CopyAllKeepsDirs(c.nodes, rs[1..]);
      CopyAllDirs(c.nodes, rs[1..]);
      forall j, k | 0 <= j < |rs| && 0 <= k < |rs[j].dest|
        ensures IsDir(CopyAll(t, rs).nodes, rs[j].dest[..k])
      {
        if j > 0 {
          assert rs[j] == rs[1..][j - 1];
        }
      }
    }
  }

  /** A failed copy is the first failing record applied to the successful
      copy of the records before it; no later record is touched. */
  lemma {:induction false} CopyAllStops(t: Tree, rs: seq<Record>)
    requires CopyAll(t, rs).err.Some?
    ensures exists k :: 0 <= k < |rs| &&
              CopyAll(t, rs[..k]).err.None? &&
              CopyOne(CopyAll(t, rs[..k]).nodes, rs[k]) == CopyAll(t, rs)
    decreases |rs|
  {
    var c := CopyOne(t, rs[0]);
    if c.err.Some? {
      assert rs[..0] == [];
      assert CopyAll(t, rs[..0]) == Copied(t, None);
      assert CopyOne(t, rs[0]) == CopyAll(t, rs);
    } else {
      var rest := rs[1..];
      CopyAllStops(c.nodes, rest);
      var k :| 0 <= k < |rest| &&
               CopyAll(c.nodes, rest[..k]).err.None? &&
               CopyOne(CopyAll(c.nodes, rest[..k]).nodes, rest[k]) == CopyAll(c.nodes, rest);
      var pre := rs[..k + 1];
      assert pre != [] && pre[0] == rs[0];
      TakeTail(rs, k);
      assert CopyAll(t, pre) == CopyAll(c.nodes, rest[..k]);
      assert rs[k + 1] == rest[k];
      assert CopyAll(t, rs) == CopyAll(c.nodes, rest);
      assert CopyOne(CopyAll(t, rs[..k + 1]).nodes, rs[k + 1]) == CopyAll(t, rs);
    }
  }

  lemma TakeTail<T>(s: seq<T>, k: nat)
    requires k < |s|
    ensures s[..k + 1][1..] == s[1..][..k]
  {
  }

  /** Sources and destinations do not alias: no source is a destination,
      and no source is a link to a destination. */
  predicate Apart(t: Tree, rs: seq<Record>) {
    forall j, k :: 0 <= j < |rs| && 0 <= k < |rs| ==>
      rs[j].path != rs[k].dest && (rs[j].path in t ==> t[rs[j].path] != Link(rs[k].dest))
  }

  predicate DestsNotLinks(t: Tree, rs: seq<Record>) {
    forall j :: 0 <= j < |rs| ==> NotLink(t, rs[j].dest)
  }

  /** A node that is no record's destination is left as it was. */
  lemma {:induction false} CopyAllFrame(t: Tree, rs: seq<Record>, q: Path)
    requires ValidTree(t) && DestsNotLinks(t, rs)
    requires q in t && forall j :: 0 <= j < |rs| ==> rs[j].dest != q
    ensures q in CopyAll(t, rs).nodes && CopyAll(t, rs).nodes[q] == t[q]
    decreases |rs|
  {
    if rs != [] {
      CopyOneSpec(t, rs[0]);
      var c := CopyOne(t, rs[0]);
      if c.err.None? {
        assert DestsNotLinks(c.nodes, rs[1..]) by {
          forall j | 0 <= j < |rs[1..]| ensures NotLink(c.nodes, rs[1..][j].dest) {
            assert NotLink(t, rs[j + 1].dest);
          }
        }
        CopyAllFrame(c.nodes, rs[1..], q);
      }
    }
  }

  /** The aliasing conditions hold again for the remaining records after a
      successful first copy. */
  lemma CopyOneKeepsApart(t: Tree, rs: seq<Record>)
    requires ValidTree(t) && rs != [] && DestsNotLinks(t, rs) && Apart(t, rs)
    requires CopyOne(t, rs[0]).err.None?
    ensures DestsNotLinks(CopyOne(t, rs[0]).nodes, rs[1..])
    ensures Apart(CopyOne(t, rs[0]).nodes, rs[1..])
  {
    CopyOneSpec(t, rs[0]);
    var c := CopyOne(t, rs[0]);
    var rest := rs[1..];
    forall j | 0 <= j < |rest| ensures NotLink(c.nodes, rest[j].dest) {
      assert NotLink(t, rs[j + 1].dest);
    }
    forall j, k | 0 <= j < |rest| && 0 <= k < |rest|
      ensures rest[j].path in c.nodes ==> c.nodes[rest[j].path] != Link(rest[k].dest)
    {
      assert rest[j] == rs[j + 1] && rest[k] == rs[k + 1];
    }
  }

  /** The first record's content stays at its destination when no later
      record names that destination. */
  lemma CopyAllFirstKept(t: Tree, rs: seq<Record>)
    requires ValidTree(t) && rs != [] && DestsNotLinks(t, rs) && Apart(t, rs)
    requires CopyAll(t, rs).err.None?
    requires forall j :: 0 < j < |rs| ==> rs[j].dest != rs[0].dest
    ensures Read(t, rs[0].path).Ok?
    ensures Read(CopyAll(t, rs).nodes, rs[0].dest) == Read(t, rs[0].path)
  {
    var c := CopyOne(t, rs[0]);
    assert c.err.None? && CopyAll(t, rs) == CopyAll(c.nodes, rs[1..]);
    CopyOneSpec(t, rs[0]);
    CopyOneKeepsApart(t, rs);
    var d := rs[0].dest;
    assert NotLink(t, d);
    assert d in c.nodes && c.nodes[d].File?;
    forall j | 0 <= j < |rs[1..]| ensures rs[1..][j].dest != d {
      assert rs[1..][j] == rs[j + 1];
    }
    CopyAllFrame(c.nodes, rs[1..], d);
  }

  /** When the copy succeeds and no source aliases a destination, the
      content at each destination is that of the last record naming it:
      later records with the same destination overwrite earlier ones. */
  lemma {:induction false} CopyAllLastWins(t: Tree, rs: seq<Record>, i: nat)
    requires ValidTree(t) && DestsNotLinks(t, rs) && Apart(t, rs)
    requires CopyAll(t, rs).err.None?
    requires i < |rs| && forall j :: i < j < |rs| ==> rs[j].dest != rs[i].dest
    ensures Read(t, rs[i].path).Ok?
    ensures Read(CopyAll(t, rs).nodes, rs[i].dest) == Read(t, rs[i].path)
    decreases |rs|
  {
    if i == 0 {
      CopyAllFirstKept(t, rs);
    } else {
      var c := CopyOne(t, rs[0]);
      var rest := rs[1..];
      assert c.err.None? && CopyAll(t, rs) == CopyAll(c.nodes, rest);
      assert rest[i - 1] == rs[i];
      CopyOneValid(t, rs[0]);
      CopyOneKeepsApart(t, rs);
      forall j | i - 1 < j < |rest| ensures rest[j].dest != rest[i - 1].dest {
        assert rest[j] == rs[j + 1];
      }
      CopyAllLastWins(c.nodes, rest, i - 1);
      assert NotLink(t, rs[0].dest);
      assert rs[i].path != rs[0].dest && (rs[i].path in t ==> t[rs[i].path] != Link(rs[0].dest));
      ReadBeforeCopy(t, rs[0], rs[i].path);
      assert Read(CopyAll(t, rs).nodes, rs[i].dest) == Read(c.nodes, rs[i].path);
    }
  }

  lemma CopyOneValid(t: Tree, r: Record)
    requires ValidTree(t)
    ensures ValidTree(CopyOne(t, r).nodes)
  {
    CopyOneSpec(t, r);
  }

  /** A source that one copy did not target reads, if at all, as it did before. */
  lemma ReadBeforeCopy(t: Tree, r: Record, src: Path)
    requires ValidTree(t) && NotLink(t, r.dest)
    requires CopyOne(t, r).err.None?
    requires src != r.dest && (src in t ==> t[src] != Link(r.dest))
    requires Read(CopyOne(t, r).nodes, src).Ok?
    ensures Read(t, src) == Read(CopyOne(t, r).nodes, src)
  {
    CopyOneSpec(t, r);
    var t' := CopyOne(t, r).nodes;
    assert src in t;
    if t[src].Link? {
      assert t[src].target in t;
    }
  }

  /** `files.forEach(...)` inside `try`: copies record after record and stops
      at the first error, which becomes the step's error. */
  method CopySources(fs: FileSystem, files: seq<Record>) returns (err: Option<FsError>)
    requires fs.Valid()
    modifies fs
    ensures fs.Valid()
    ensures Copied(fs.nodes, err) == CopyAll(old(fs.nodes), files)
  {
    err := None;
    var i := 0;
    while i < |files| && err.None?
      invariant 0 <= i <= |files|
      invariant fs.Valid()
      invariant err.None? ==> CopyAll(old(fs.nodes), files) == CopyAll(fs.nodes, files[i..])
      invariant err.Some? ==> CopyAll(old(fs.nodes), files) == Copied(fs.nodes, err)
    {
      var f := files[i];
      assert files[i..][0] == f && files[i..][1..] == files[i + 1..];
      ghost var before := fs.nodes;
      err := fs.Mkdirp(Dirname(f.dest));
      if err.None? {
        var r := fs.ReadFile(f.path);
        if r.Err? {
          err := Some(r.error);
        } else {
          err := fs.WriteFile(f.dest, r.value);
        }
      }
      assert Copied(fs.nodes, err) == CopyOne(before, f);
      i := i + 1;
    }
  }
}
