/**
 * An abstract filesystem. A location is a pair of an installation directory
 * and a normalised path relative to it: separators are single, with none at
 * either end, as `java.io.File` normalises a child path; `..` is not
 * resolved, and the empty relative path names the directory itself.
 */
module FileSystem {
  import opened Archives

  datatype Loc = Loc(dir: string, rel: string)

  datatype Node = Directory | File(bytes: seq<byte>)

  type Fs = map<Loc, Node>

  /**
   * A relative path as `java.io.File` keeps it: no separator at either end
   * and no two separators in a row.
   */
  predicate IsNormal(s: string) {
    forall i :: 0 <= i < |s| && s[i] == '/' ==> 0 < i < |s| - 1 && s[i + 1] != '/'
  }

  /**
   * The normalising scan of `s[i..]`: `started` says a component has been
   * emitted, `owed` that a separator is due before the next one.
   */
  function Tidy(s: string, i: nat, started: bool, owed: bool): string
    requires i <= |s|
    decreases |s| - i
  {
    if i == |s| then ""
    else if s[i] == '/' then Tidy(s, i + 1, started, started)
    else (if owed then "/" else "") + [s[i]] + Tidy(s, i + 1, true, false)
  }

  /** What the scan emits: components joined by single separators, none at the end. */
  lemma {:induction false} TidyShape(s: string, i: nat, started: bool, owed: bool)
    requires i <= |s|
    ensures var r := Tidy(s, i, started, owed);
      && (r == "" <==> forall k :: i <= k < |s| ==> s[k] == '/')
      && (|r| > 0 ==> r[|r| - 1] != '/')
      && (forall k :: 0 <= k < |r| - 1 && r[k] == '/' ==> r[k + 1] != '/')
      && (!started && !owed ==> |r| == 0 || r[0] != '/')
    decreases |s| - i
  {
    if i < |s| {
      if s[i] == '/' {
        TidyShape(s, i + 1, started, started);
      } else {
        TidyShape(s, i + 1, true, false);
      }
    }
  }

  /** The relative part of `new File(dir, child)`: runs of separators collapse, and end separators go. */
  function Normalize(s: string): (r: string)
    ensures IsNormal(r)
    ensures r == "" <==> forall i :: 0 <= i < |s| ==> s[i] == '/'
  {
    TidyShape(s, 0, false, false);
    Tidy(s, 0, false, false)
  }

  /** A trailing separator does not change the scan. */
  lemma {:induction false} TidyTrailingSlash(s: string, i: nat, started: bool, owed: bool)
    requires i <= |s|
    ensures Tidy(s + "/", i, started, owed) == Tidy(s, i, started, owed)
    decreases |s| - i
  {
    if i == |s| {
      assert (s + "/")[i] == '/';
    } else {
      assert (s + "/")[i] == s[i];
      if s[i] == '/' {
        TidyTrailingSlash(s, i + 1, started, started);
      } else {
        TidyTrailingSlash(s, i + 1, true, false);
      }
    }
  }

  /** `x/` and `x` name the same file. */
  lemma NormalizeDropsTrailingSlash(s: string)
    ensures Normalize(s + "/") == Normalize(s)
  {
    TidyTrailingSlash(s, 0, false, false);
  }

  /** Once a component has been emitted, a path without doubled or trailing separators scans to itself. */
  lemma {:induction false} TidyKeepsTidy(s: string, i: nat)
    requires i <= |s|
    requires |s| > i ==> s[|s| - 1] != '/'
    requires forall k :: i <= k < |s| - 1 && s[k] == '/' ==> s[k + 1] != '/'
    ensures Tidy(s, i, true, false) == s[i..]
    decreases |s| - i
  {
    if i < |s| {
      if s[i] == '/' {
        assert i + 1 < |s| && s[i + 1] != '/';
        assert Tidy(s, i, true, false) == Tidy(s, i + 1, true, true) == "/" + [s[i + 1]] + Tidy(s, i + 2, true, false);
        TidyKeepsTidy(s, i + 2);
        assert s[i..] == "/" + [s[i + 1]] + s[i + 2..];
      } else {
        TidyKeepsTidy(s, i + 1);
        assert s[i..] == [s[i]] + s[i + 1..];
      }
    }
  }

  /** A normal path is its own normal form, so normalising is idempotent. */
  lemma NormalizeKeepsNormal(s: string)
    requires IsNormal(s)
    ensures Normalize(s) == s
  {
    if |s| > 0 {
      TidyKeepsTidy(s, 1);
      assert s == [s[0]] + s[1..];
    }
  }

  /** A path without a separator is a single component, already normal. */
  lemma ComponentIsNormal(s: string)
    requires forall i :: 0 <= i < |s| ==> s[i] != '/'
    ensures Normalize(s) == s
  {
    NormalizeKeepsNormal(s);
  }

  lemma NormalizeIdempotent(s: string)
    ensures Normalize(Normalize(s)) == Normalize(s)
  {
    NormalizeKeepsNormal(Normalize(s));
  }

  function Root(dir: string): Loc {
    Loc(dir, "")
  }

  /**
   * `p` is a directory above `l`: in the same installation directory, and
   * either that directory itself or a component-wise proper prefix of the
   * path, one followed by a separator.
   */
  predicate IsAncestor(p: Loc, l: Loc) {
    && p.dir == l.dir
    && |p.rel| < |l.rel|
    && (p.rel == "" || (l.rel[|p.rel|] == '/' && p.rel == l.rel[..|p.rel|]))
  }

  /** The directories above `l` whose paths are shorter than `n`, collected one length at a time. */
  function AncestorsBelow(l: Loc, n: nat): (r: set<Loc>)
    requires n <= |l.rel|
    ensures forall p :: p in r <==> IsAncestor(p, l) && |p.rel| < n
  {
    if n == 0 then {}
    else
      var m := n - 1;
      var here := Loc(l.dir, l.rel[..m]);
      assert forall p :: IsAncestor(p, l) && |p.rel| == m ==> p == here;
      AncestorsBelow(l, m) + (if m == 0 || l.rel[m] == '/' then {here} else {})
  }

  /** The directories above a location, its installation directory included. */
  function Ancestors(l: Loc): set<Loc>
  {
    AncestorsBelow(l, |l.rel|)
  }

  /** A single path component sits right below its installation directory. */
  lemma ComponentAncestors(dir: string, s: string)
    requires s != "" && forall i :: 0 <= i < |s| ==> s[i] != '/'
    ensures Ancestors(Loc(dir, s)) == {Root(dir)}
  {
    forall p | p in Ancestors(Loc(dir, s))
      ensures p == Root(dir)
    {
    }
  }

  /** A file stands on the way to `l`: one of the directories above it is a file. */
  predicate BelowFile(fs: Fs, l: Loc) {
    exists p :: p in Ancestors(l) && p in fs && fs[p].File?
  }

  /** The locations of `dirs` made directories, as a successful `mkdirs` leaves them; the rest is kept. */
  function WithDirectories(fs: Fs, dirs: set<Loc>): (r: Fs)
    ensures forall l :: l in r <==> l in fs || l in dirs
    ensures forall l :: l in dirs ==> r[l] == Directory
    ensures forall l :: l in fs && l !in dirs ==> r[l] == fs[l]
  {
    fs + map l | l in dirs :: Directory
  }

  /** `dir.exists()`. */
  predicate Exists(fs: Fs, dir: string) {
    Root(dir) in fs
  }

  /** Nothing is stored in or under `dir`. */
  predicate Gone(fs: Fs, dir: string) {
    forall l: Loc :: l in fs ==> l.dir != dir
  }

  /** `deleteRecursive(dir)`: `dir` and everything under it disappear; the rest is kept. */
  function DeleteRecursive(fs: Fs, dir: string): (r: Fs)
    ensures Gone(r, dir)
    ensures forall l: Loc :: l.dir != dir ==> (l in r <==> l in fs)
    ensures forall l: Loc :: l in r ==> r[l] == fs[l]
  {
    map l | l in fs && l.dir != dir :: fs[l]
  }

  /** Deleting two trees in either order gives the same filesystem. */
  lemma DeleteRecursiveCommutes(fs: Fs, a: string, b: string)
    ensures DeleteRecursive(DeleteRecursive(fs, a), b) == DeleteRecursive(DeleteRecursive(fs, b), a)
  {
  }

  /**
   * Two filesystems that differ only under `a` and `b` are equal once both
   * trees are deleted.
   */
  lemma DeleteHidesDifferences(fs: Fs, fs': Fs, a: string, b: string)
    requires forall l: Loc :: l.dir != a && l.dir != b ==> (l in fs <==> l in fs')
    requires forall l: Loc :: l.dir != a && l.dir != b && l in fs ==> fs[l] == fs'[l]
    ensures DeleteRecursive(DeleteRecursive(fs, a), b) == DeleteRecursive(DeleteRecursive(fs', a), b)
  {
  }

  datatype Created = Created(ok: bool, fs: Fs)

  /**
   * `dir.mkdirs()`: false when the directory already exists or the platform
   * refuses (`refused`); otherwise the directory is created.
   */
  function Mkdirs(fs: Fs, dir: string, refused: bool): (r: Created)
    ensures r.ok <==> !Exists(fs, dir) && !refused
    ensures r.ok ==> r.fs == fs[Root(dir) := Directory]
    ensures !r.ok ==> r.fs == fs
  {
    if Exists(fs, dir) || refused then Created(false, fs) else Created(true, fs[Root(dir) := Directory])
  }
}
