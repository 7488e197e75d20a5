/**
 * POSIX paths as sequences of segments, with the parts of node's `path`
 * module that the plugin uses: `normalize`, `relative` and `join`.
 * An absolute path `/a/b/c` is the sequence ["a", "b", "c"]; the root is [].
 */
module Paths {

  type Path = seq<string>

  /** A segment that survives normalisation: not empty, not "." and not "..". */
  predicate Plain(s: string) {
    s != "" && s != "." && s != ".."
  }

  predicate NormalForm(p: Path) {
    forall i :: 0 <= i < |p| ==> Plain(p[i])
  }

  predicate IsPrefix(a: Path, b: Path) {
    |a| <= |b| && b[..|a|] == a
  }

  /** `path.normalize` of an absolute path: empty and "." segments vanish,
      ".." removes the previous segment and stays at the root. */
  function Normalize(p: Path): (r: Path)
    ensures NormalForm(r)
    ensures |r| <= |p|
  {
    if p == [] then []
    else
      var q := Normalize(p[..|p| - 1]);
      var s := p[|p| - 1];
      if s == "" || s == "." then q
      else if s == ".." then (if q == [] then [] else q[..|q| - 1])
      else q + [s]
  }

  /** The length of the longest common prefix of `a` and `b`. */
  function CommonPrefix(a: Path, b: Path): (k: nat)
    ensures k <= |a| && k <= |b|
    ensures a[..k] == b[..k]
    ensures k < |a| && k < |b| ==> a[k] != b[k]
  {
    if a == [] || b == [] || a[0] != b[0] then 0
    else
      var k := CommonPrefix(a[1..], b[1..]);
      assert a[1..][..k] == a[1..k + 1] && b[1..][..k] == b[1..k + 1];
      assert a[..k + 1] == [a[0]] + a[1..k + 1];
      assert b[..k + 1] == [b[0]] + b[1..k + 1];
      1 + k
  }

  /** `n` parent steps. */
  function Ups(n: nat): (r: Path)
    ensures |r| == n && forall i :: 0 <= i < n ==> r[i] == ".."
  {
    seq(n, _ => "..")
  }

  /** `path.relative(from, to)`: climb from `from` to the common ancestor, then
      descend to `to`. Equal paths give the empty relative path. */
  function Relative(from: Path, to: Path): (r: Path)
    ensures forall i :: 0 <= i < |r| ==> r[i] == ".." || Plain(r[i])
  {
    var f := Normalize(from);
    var t := Normalize(to);
    var k := CommonPrefix(f, t);
    Ups(|f| - k) + t[k..]
  }

  /** `path.join(base, rel)`, which normalises the concatenation. */
  function Join(base: Path, rel: Path): (r: Path)
    ensures NormalForm(r) && |r| <= |base| + |rel|
  {
    Normalize(base + rel)
  }

  /** Concatenation of segment lists (and of any sequences) is associative. */
  lemma ConcatAssoc<T>(a: seq<T>, b: seq<T>, d: seq<T>)
    ensures (a + b) + d == a + (b + d)
  {
  }

  /** `path.dirname`. */
  function Dirname(p: Path): Path {
    if p == [] then [] else p[..|p| - 1]
  }

  /** The textual form of an absolute path, as passed to `git clone`. */
  function Show(p: Path): string {
    if p == [] then "/" else ShowSegments(p)
  }

  function ShowSegments(p: Path): string {
    if p == [] then "" else "/" + p[0] + ShowSegments(p[1..])
  }

  /** Normalisation leaves a path that is already in normal form unchanged. */
  lemma {:induction false} NormalizeNormal(p: Path)
    requires NormalForm(p)
    ensures Normalize(p) == p
  {
    if p != [] {
      NormalizeNormal(p[..|p| - 1]);
      assert p[..|p| - 1] + [p[|p| - 1]] == p;
    }
  }

  /** Normalising `x + t` for a normal `t` normalises `x` alone. */
  lemma {:induction false} NormalizeAppendNormal(x: Path, t: Path)
    requires NormalForm(t)
    ensures Normalize(x + t) == Normalize(x) + t
  {
    if t == [] {
      assert x + t == x;
    } else {
      var t' := t[..|t| - 1];
      assert (x + t)[..|x + t| - 1] == x + t';
      NormalizeAppendNormal(x, t');
      assert Normalize(x) + t' + [t[|t| - 1]] == Normalize(x) + t;
    }
  }

  /** The first `|p| - n` segments of `p`, or the root when `n` climbs past it. */
  function Climb(p: Path, n: nat): Path {
    p[..if n <= |p| then |p| - n else 0]
  }

  /** Each ".." appended to a normal path removes one segment; at the root
      a ".." stays at the root. */
  lemma {:induction false} NormalizeUps(base: Path, n: nat)
    requires NormalForm(base)
    ensures Normalize(base + Ups(n)) == Climb(base, n)
  {
    if n == 0 {
      assert base + Ups(0) == base;
      NormalizeNormal(base);
    } else {
      var x := base + Ups(n);
      assert x[..|x| - 1] == base + Ups(n - 1);
      assert x[|x| - 1] == "..";
      NormalizeUps(base, n - 1);
      var q := Climb(base, n - 1);
      if n <= |base| {
        assert q[..|q| - 1] == Climb(base, n);
      } else {
        assert q == [] && Climb(base, n) == [];
      }
    }
  }

  /** Joining a normal base with a relative path climbs `|f| - k` levels,
      stopping at the root, and then descends along the rest of `to`. */
  lemma JoinRelative(base: Path, from: Path, to: Path)
    requires NormalForm(base)
    ensures var f, t := Normalize(from), Normalize(to);
            var k := CommonPrefix(f, t);
            Join(base, Relative(from, to)) == Climb(base, |f| - k) + t[k..]
  {
    var f, t := Normalize(from), Normalize(to);
    var k := CommonPrefix(f, t);
    RelativeSplit(from, to);
    JoinUps(base, |f| - k, t[k..]);
  }

  /** The relative path is the climb followed by the normal rest of `to`. */
  lemma RelativeSplit(from: Path, to: Path)
    ensures var f, t := Normalize(from), Normalize(to);
            var k := CommonPrefix(f, t);
            Relative(from, to) == Ups(|f| - k) + t[k..] && NormalForm(t[k..])
  {
    var t := Normalize(to);
    NormalSuffix(t, CommonPrefix(Normalize(from), t));
  }

  /** Joining `n` parent steps and then a normal path climbs, then descends. */
  lemma JoinUps(base: Path, n: nat, rest: Path)
    requires NormalForm(base) && NormalForm(rest)
    ensures Join(base, Ups(n) + rest) == Climb(base, n) + rest
  {
    calc {
      Join(base, Ups(n) + rest);
      Normalize(base + (Ups(n) + rest));
      { ConcatAssoc(base, Ups(n), rest); }
      Normalize((base + Ups(n)) + rest);
      { NormalizeAppendNormal(base + Ups(n), rest); }
      Normalize(base + Ups(n)) + rest;
      { NormalizeUps(base, n); }
      Climb(base, n) + rest;
    }
  }

  /** Every suffix of a normal path is normal. */
  lemma NormalSuffix(p: Path, k: nat)
    requires NormalForm(p) && k <= |p|
    ensures NormalForm(p[k..])
  {
    forall i | 0 <= i < |p| - k ensures Plain(p[k..][i]) {
      assert p[k..][i] == p[k + i];
    }
  }

  /** For a path below `from`, the relative path is the remainder below it. */
  lemma JoinRelativeBelow(base: Path, from: Path, to: Path)
    requires NormalForm(base)
    requires IsPrefix(Normalize(from), Normalize(to))
    ensures Join(base, Relative(from, to)) == base + Normalize(to)[|Normalize(from)|..]
  {
    var f, t := Normalize(from), Normalize(to);
    var k := CommonPrefix(f, t);
    assert k == |f|;
    JoinRelative(base, from, to);
    assert Climb(base, 0) == base;
  }

  /** The relative path never climbs exactly when `to` lies below `from`:
      otherwise it starts with "..". */
  lemma RelativeDescends(from: Path, to: Path)
    ensures NormalForm(Relative(from, to)) <==> IsPrefix(Normalize(from), Normalize(to))
  {
    var f, t := Normalize(from), Normalize(to);
    var k := CommonPrefix(f, t);
    var r := Relative(from, to);
    if IsPrefix(f, t) {
      assert k == |f|;
      assert r == t[k..];
      forall i | 0 <= i < |r| ensures Plain(r[i]) {
        assert r[i] == t[k + i];
      }
    } else {
      assert k < |f|;
      assert r[0] == "..";
    }
  }

  /** Joining a normal base with one plain name appends that name. */
  lemma JoinPlain(base: Path, name: string)
    requires Plain(name)
    ensures Join(base, [name]) == Normalize(base) + [name]
  {
    NormalizeAppendNormal(base, [name]);
  }
}
