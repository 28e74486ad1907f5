/**
 * Project-root discovery for a language: starting from a directory, walk
 * its ancestors and return the first one that holds a project marker and
 * no exclusion marker. Without a working directory the walk goes upwards
 * and an excluded directory ends it; with one, only directories inside it
 * are visited, outermost first, and excluded ones are skipped.
 *
 * A path is the sequence of its components; its parents are its proper
 * prefixes (the empty path stands for the file-system root) and
 * `is_relative_to` is the prefix relation. What a directory contains is an
 * oracle `glob(dir, pattern)`: whether the pattern matches some entry.
 */
module ProjectRoot {
  import opened Wrappers
  import Strings
  import Sequences

  type Path = seq<string>

  /** `path.is_relative_to(base)`. */
  predicate Within(path: Path, base: Path) {
    |base| <= |path| && path[..|base|] == base
  }

  /** `path.parent`: the root is its own parent. */
  function Parent(path: Path): Path {
    if |path| == 0 then path else path[..|path| - 1]
  }

  /** `path.name`: the last component, empty for the root. */
  function Name(path: Path): string {
    if |path| == 0 then "" else path[|path| - 1]
  }

  datatype LanguageConfig = LanguageConfig(
    suffixes: seq<string>,
    projectFiles: seq<string>,
    excludeFiles: seq<string>)

  /** Whether some entry of a directory matches a glob pattern. */
  type Glob = (Path, string) -> bool

  /** Some pattern of `patterns` matches in `dir`. */
  predicate AnyMatch(dir: Path, patterns: seq<string>, glob: Glob) {
    exists i :: 0 <= i < |patterns| && glob(dir, patterns[i])
  }

  predicate Excluded(cfg: LanguageConfig, glob: Glob, dir: Path) {
    AnyMatch(dir, cfg.excludeFiles, glob)
  }

  predicate Marked(cfg: LanguageConfig, glob: Glob, dir: Path) {
    AnyMatch(dir, cfg.projectFiles, glob)
  }

  /** A directory that qualifies as a project root on its own. */
  predicate IsRoot(cfg: LanguageConfig, glob: Glob, dir: Path) {
    !Excluded(cfg, glob, dir) && Marked(cfg, glob, dir)
  }

  /** `[path, *path.parents]`: the path and then each parent, nearest first. */
  function Ancestors(path: Path): (r: seq<Path>)
    ensures |r| == |path| + 1
    ensures forall i :: 0 <= i < |r| ==> r[i] == path[..|path| - i]
    decreases |path|
  {
    if |path| == 0 then [path]
    else
      var rest := Ancestors(path[..|path| - 1]);
      assert forall i :: 1 <= i <= |path| ==> ([path] + rest)[i] == rest[i - 1];
      [path] + rest
  }

  /** `[p for p in dirs if p.is_relative_to(base)]`. */
  function KeepWithin(dirs: seq<Path>, base: Path): (r: seq<Path>)
    decreases |dirs|
  {
    if |dirs| == 0 then []
    else if Within(dirs[0], base) then [dirs[0]] + KeepWithin(dirs[1..], base)
    else KeepWithin(dirs[1..], base)
  }

  /** The directories visited, in order. */
  function Candidates(dir: Path, cwd: Option<Path>): seq<Path> {
    if cwd.None? then Ancestors(dir) else Sequences.Reverse(KeepWithin(Ancestors(dir), cwd.value))
  }

  /**
   * The loop of `_find_project_root` over `dirs`: an excluded directory is
   * skipped when `skip` holds and ends the search otherwise; the first
   * marked directory is the answer.
   */
  function Scan(cfg: LanguageConfig, glob: Glob, dirs: seq<Path>, skip: bool): (r: Option<Path>)
    ensures r.Some? ==> exists i :: (0 <= i < |dirs| && dirs[i] == r.value && IsRoot(cfg, glob, dirs[i])
      && forall j :: 0 <= j < i ==> !IsRoot(cfg, glob, dirs[j]) && (skip || !Excluded(cfg, glob, dirs[j])))
    ensures r.None? ==> forall i :: 0 <= i < |dirs| && IsRoot(cfg, glob, dirs[i]) ==>
      !skip && exists j :: 0 <= j < i && Excluded(cfg, glob, dirs[j])
    decreases |dirs|
  {
    if |dirs| == 0 then None
    else if Excluded(cfg, glob, dirs[0]) then
      if skip then Scan(cfg, glob, dirs[1..], skip) else None
    else if Marked(cfg, glob, dirs[0]) then Some(dirs[0])
    else Scan(cfg, glob, dirs[1..], skip)
  }

  /** The position in `dirs` of the directory a successful scan returns. */
  lemma ScanIndex(cfg: LanguageConfig, glob: Glob, dirs: seq<Path>, skip: bool) returns (i: nat)
    requires Scan(cfg, glob, dirs, skip).Some?
    ensures i < |dirs| && dirs[i] == Scan(cfg, glob, dirs, skip).value && IsRoot(cfg, glob, dirs[i])
    ensures forall j :: 0 <= j < i ==> !IsRoot(cfg, glob, dirs[j]) && (skip || !Excluded(cfg, glob, dirs[j]))
  {
    i :| 0 <= i < |dirs| && dirs[i] == Scan(cfg, glob, dirs, skip).value && IsRoot(cfg, glob, dirs[i])
      && forall j :: 0 <= j < i ==> !IsRoot(cfg, glob, dirs[j]) && (skip || !Excluded(cfg, glob, dirs[j]));
  }

  datatype RootError = NotRelative(path: Path, cwd: Path)

  /** `_find_project_root(dir, cwd)`: `ValueError` when `dir` is outside `cwd`. */
  function FindFrom(cfg: LanguageConfig, glob: Glob, dir: Path, cwd: Option<Path>): (r: Result<Option<Path>, RootError>)
    ensures r.Err? <==> cwd.Some? && !Within(dir, cwd.value)
    ensures r.Ok? && r.value.Some? ==>
      && Within(dir, r.value.value)
      && (cwd.Some? ==> Within(r.value.value, cwd.value))
      && IsRoot(cfg, glob, r.value.value)
  {
    if cwd.Some? && !Within(dir, cwd.value) then Err(NotRelative(dir, cwd.value))
    else if cwd.None? then Ok(Scan(cfg, glob, Candidates(dir, cwd), false))
    else
      CwdCandidates(dir, cwd.value);
      Ok(Scan(cfg, glob, Candidates(dir, cwd), true))
  }

  /** A prefix of a path inside `base` is inside `base` exactly when it is no shorter. */
  lemma WithinPrefix(dir: Path, base: Path, k: nat)
    requires Within(dir, base) && k <= |dir|
    ensures Within(dir[..k], base) <==> |base| <= k
  {
    if |base| <= k {
      assert dir[..k][..|base|] == dir[..|base|];
    }
  }

  /** Filtering a sequence whose first `n` elements are kept and the rest dropped leaves that prefix. */
  lemma {:induction false} KeepWithinPrefix(dirs: seq<Path>, base: Path, n: nat)
    requires n <= |dirs|
    requires forall i :: 0 <= i < n ==> Within(dirs[i], base)
    requires forall i :: n <= i < |dirs| ==> !Within(dirs[i], base)
    ensures KeepWithin(dirs, base) == dirs[..n]
    decreases |dirs|
  {
    if |dirs| == 0 {
    } else if n == 0 {
      KeepWithinPrefix(dirs[1..], base, 0);
    } else {
      KeepWithinPrefix(dirs[1..], base, n - 1);
      assert [dirs[0]] + dirs[1..][..n - 1] == dirs[..n];
    }
  }

  /** With a working directory the candidates are its own path and then each step down towards `dir`. */
  lemma CwdCandidates(dir: Path, cwd: Path)
    requires Within(dir, cwd)
    ensures var c := Candidates(dir, Some(cwd));
      && |c| == |dir| - |cwd| + 1
      && forall i :: 0 <= i < |c| ==> c[i] == dir[..|cwd| + i]
  {
    var n := |dir| - |cwd| + 1;
    KeptAncestors(dir, cwd);
    ReversedAncestors(dir, n);
    var c := Sequences.Reverse(Ancestors(dir)[..n]);
    assert Candidates(dir, Some(cwd)) == c;
    forall i | 0 <= i < |c| ensures c[i] == dir[..|cwd| + i] {
      assert |dir| - n + 1 + i == |cwd| + i;
    }
  }

  /** The ancestors-or-self of `dir` inside `cwd` are the first `|dir| - |cwd| + 1` of them. */
  lemma KeptAncestors(dir: Path, cwd: Path)
    requires Within(dir, cwd)
    ensures KeepWithin(Ancestors(dir), cwd) == Ancestors(dir)[..|dir| - |cwd| + 1]
  {
    var anc := Ancestors(dir);
    var n := |dir| - |cwd| + 1;
    forall i | 0 <= i < |anc| ensures Within(anc[i], cwd) <==> i < n {
      WithinPrefix(dir, cwd, |dir| - i);
    }
    KeepWithinPrefix(anc, cwd, n);
  }

  /** The first `n` ancestors-or-self, reversed, run from the outermost down to `dir`. */
  lemma ReversedAncestors(dir: Path, n: nat)
    requires 1 <= n <= |dir| + 1
    ensures var c := Sequences.Reverse(Ancestors(dir)[..n]);
      && |c| == n
      && forall i :: 0 <= i < n ==> c[i] == dir[..|dir| - n + 1 + i]
  {
    var anc := Ancestors(dir);
    var c := Sequences.Reverse(anc[..n]);
    forall i | 0 <= i < n ensures c[i] == dir[..|dir| - n + 1 + i] {
      assert c[i] == anc[..n][n - 1 - i] == anc[n - 1 - i];
    }
  }

  /** The scan returns a root when nothing before it stops the scan or is a root. */
  lemma {:induction false} ScanFinds(cfg: LanguageConfig, glob: Glob, dirs: seq<Path>, skip: bool, i: nat)
    requires i < |dirs| && IsRoot(cfg, glob, dirs[i])
    requires forall j :: 0 <= j < i ==> !IsRoot(cfg, glob, dirs[j]) && (skip || !Excluded(cfg, glob, dirs[j]))
    ensures Scan(cfg, glob, dirs, skip) == Some(dirs[i])
    decreases i
  {
    if i > 0 {
      ScanFinds(cfg, glob, dirs[1..], skip, i - 1);
    }
  }

  /** Without skipping, an excluded directory with no root before it ends the scan empty-handed. */
  lemma {:induction false} ScanStops(cfg: LanguageConfig, glob: Glob, dirs: seq<Path>, e: nat)
    requires e < |dirs| && Excluded(cfg, glob, dirs[e])
    requires forall j :: 0 <= j < e ==> !IsRoot(cfg, glob, dirs[j])
    ensures Scan(cfg, glob, dirs, false) == None
    decreases e
  {
    if e > 0 && !Excluded(cfg, glob, dirs[0]) {
      ScanStops(cfg, glob, dirs[1..], e - 1);
    }
  }

  /** The condition under which `dir[..k]` is the root found without a working directory. */
  predicate NearestAt(cfg: LanguageConfig, glob: Glob, dir: Path, k: nat) {
    && k <= |dir| && IsRoot(cfg, glob, dir[..k])
    && forall k' :: k < k' <= |dir| ==> !Excluded(cfg, glob, dir[..k']) && !Marked(cfg, glob, dir[..k'])
  }

  lemma NearestReached(cfg: LanguageConfig, glob: Glob, dir: Path, k: nat)
    requires NearestAt(cfg, glob, dir, k)
    ensures FindFrom(cfg, glob, dir, None) == Ok(Some(dir[..k]))
  {
    var dirs := Ancestors(dir);
    forall j | 0 <= j < |dir| - k ensures !IsRoot(cfg, glob, dirs[j]) && !Excluded(cfg, glob, dirs[j]) {
      assert dirs[j] == dir[..|dir| - j];
    }
    ScanFinds(cfg, glob, dirs, false, |dir| - k);
  }

  lemma NearestOnly(cfg: LanguageConfig, glob: Glob, dir: Path)
    requires FindFrom(cfg, glob, dir, None).Ok? && FindFrom(cfg, glob, dir, None).value.Some?
    ensures exists k: nat :: NearestAt(cfg, glob, dir, k) && FindFrom(cfg, glob, dir, None).value.value == dir[..k]
  {
    var dirs := Ancestors(dir);
    var i := ScanIndex(cfg, glob, dirs, false);
    var k := |dir| - i;
    forall k' | k < k' <= |dir| ensures !Excluded(cfg, glob, dir[..k']) && !Marked(cfg, glob, dir[..k']) {
      assert dirs[|dir| - k'] == dir[..k'];
    }
    assert NearestAt(cfg, glob, dir, k);
  }

  /**
   * Without a working directory the answer is the nearest ancestor-or-self
   * that is a root, provided no directory met before it is excluded or
   * marked.
   */
  lemma NearestRoot(cfg: LanguageConfig, glob: Glob, dir: Path, q: Path)
    ensures FindFrom(cfg, glob, dir, None) == Ok(Some(q)) <==> exists k: nat :: NearestAt(cfg, glob, dir, k) && q == dir[..k]
  {
    if FindFrom(cfg, glob, dir, None) == Ok(Some(q)) {
      NearestOnly(cfg, glob, dir);
    }
    if exists k: nat :: NearestAt(cfg, glob, dir, k) && q == dir[..k] {
      var k: nat :| NearestAt(cfg, glob, dir, k) && q == dir[..k];
      NearestReached(cfg, glob, dir, k);
    }
  }

  /**
   * Without a working directory, an excluded directory reached before any
   * marked one ends the search with no root, even when it or an outer
   * directory is marked.
   */
  lemma ExcludedStops(cfg: LanguageConfig, glob: Glob, dir: Path, k: nat)
    requires k <= |dir| && Excluded(cfg, glob, dir[..k])
    requires forall k' :: k < k' <= |dir| ==> !Marked(cfg, glob, dir[..k'])
    ensures FindFrom(cfg, glob, dir, None) == Ok(None)
  {
    var dirs := Ancestors(dir);
    forall j | 0 <= j < |dir| - k ensures !IsRoot(cfg, glob, dirs[j]) {
      assert dirs[j] == dir[..|dir| - j];
    }
    ScanStops(cfg, glob, dirs, |dir| - k);
  }

  /** The condition under which `dir[..k]` is the root found inside `cwd`. */
  predicate OutermostAt(cfg: LanguageConfig, glob: Glob, dir: Path, cwd: Path, k: nat) {
    && |cwd| <= k <= |dir| && IsRoot(cfg, glob, dir[..k])
    && forall k' :: |cwd| <= k' < k ==> !IsRoot(cfg, glob, dir[..k'])
  }

  lemma OutermostReached(cfg: LanguageConfig, glob: Glob, dir: Path, cwd: Path, k: nat)
    requires Within(dir, cwd) && OutermostAt(cfg, glob, dir, cwd, k)
    ensures FindFrom(cfg, glob, dir, Some(cwd)) == Ok(Some(dir[..k]))
  {
    var dirs := Candidates(dir, Some(cwd));
    CwdCandidates(dir, cwd);
    forall j | 0 <= j < k - |cwd| ensures !IsRoot(cfg, glob, dirs[j]) {
      assert dirs[j] == dir[..|cwd| + j];
    }
    ScanFinds(cfg, glob, dirs, true, k - |cwd|);
  }

  lemma OutermostOnly(cfg: LanguageConfig, glob: Glob, dir: Path, cwd: Path)
    requires Within(dir, cwd)
    requires FindFrom(cfg, glob, dir, Some(cwd)).Ok? && FindFrom(cfg, glob, dir, Some(cwd)).value.Some?
    ensures exists k: nat :: OutermostAt(cfg, glob, dir, cwd, k) && FindFrom(cfg, glob, dir, Some(cwd)).value.value == dir[..k]
  {
    var dirs := Candidates(dir, Some(cwd));
    CwdCandidates(dir, cwd);
    var i := ScanIndex(cfg, glob, dirs, true);
    var k := |cwd| + i;
    forall k' | |cwd| <= k' < k ensures !IsRoot(cfg, glob, dir[..k']) {
      assert dirs[k' - |cwd|] == dir[..k'];
    }
    assert OutermostAt(cfg, glob, dir, cwd, k);
  }

  /**
   * With a working directory the answer is the outermost root among the
   * directories from `cwd` down to `dir`; excluded directories on the way
   * are passed over rather than ending the search.
   */
  lemma OutermostRoot(cfg: LanguageConfig, glob: Glob, dir: Path, cwd: Path, q: Path)
    requires Within(dir, cwd)
    ensures FindFrom(cfg, glob, dir, Some(cwd)) == Ok(Some(q)) <==>
      exists k: nat :: OutermostAt(cfg, glob, dir, cwd, k) && q == dir[..k]
  {
    if FindFrom(cfg, glob, dir, Some(cwd)) == Ok(Some(q)) {
      OutermostOnly(cfg, glob, dir, cwd);
    }
    if exists k: nat :: OutermostAt(cfg, glob, dir, cwd, k) && q == dir[..k] {
      var k: nat :| OutermostAt(cfg, glob, dir, cwd, k) && q == dir[..k];
      OutermostReached(cfg, glob, dir, cwd, k);
    }
  }

  /** No directory between `cwd` and `dir` being a root means no root. */
  lemma NoRootInside(cfg: LanguageConfig, glob: Glob, dir: Path, cwd: Path)
    requires Within(dir, cwd)
    requires forall k :: |cwd| <= k <= |dir| ==> !IsRoot(cfg, glob, dir[..k])
    ensures FindFrom(cfg, glob, dir, Some(cwd)) == Ok(None)
  {
    var dirs := Candidates(dir, Some(cwd));
    CwdCandidates(dir, cwd);
    forall i | 0 <= i < |dirs| ensures !IsRoot(cfg, glob, dirs[i]) {
      assert dirs[i] == dir[..|cwd| + i];
    }
  }

  /** `any(name.endswith(s) for s in suffixes)`. */
  predicate HasSuffix(cfg: LanguageConfig, name: string) {
    exists i :: 0 <= i < |cfg.suffixes| && Strings.EndsWith(name, cfg.suffixes[i])
  }

  /**
   * `find_project_root(path, cwd)`: `isFile` is the oracle for
   * `path.is_file()`. A file without a known suffix has no root; for a file
   * with one the search starts at its directory.
   */
  function FindProjectRoot(cfg: LanguageConfig, glob: Glob, isFile: Path -> bool, path: Path, cwd: Option<Path>)
    : (r: Result<Option<Path>, RootError>)
    ensures cwd.Some? && !Within(path, cwd.value) ==> r.Err?
    ensures (cwd.None? || Within(path, cwd.value)) && isFile(path) && !HasSuffix(cfg, Name(path)) ==> r == Ok(None)
    ensures (cwd.None? || Within(path, cwd.value)) && isFile(path) && HasSuffix(cfg, Name(path)) ==>
      r == FindFrom(cfg, glob, Parent(path), cwd)
    ensures (cwd.None? || Within(path, cwd.value)) && !isFile(path) ==> r == FindFrom(cfg, glob, path, cwd)
  {
    if cwd.Some? && !Within(path, cwd.value) then Err(NotRelative(path, cwd.value))
    else if isFile(path) then
      if !HasSuffix(cfg, Name(path)) then Ok(None) else FindFrom(cfg, glob, Parent(path), cwd)
    else FindFrom(cfg, glob, path, cwd)
  }

  /**
   * A file's search fails only when the file is the working directory
   * itself, whose parent lies outside it.
   */
  lemma FileInsideCwd(cfg: LanguageConfig, glob: Glob, isFile: Path -> bool, path: Path, cwd: Path)
    requires Within(path, cwd) && isFile(path) && HasSuffix(cfg, Name(path))
    ensures FindProjectRoot(cfg, glob, isFile, path, Some(cwd)).Err? <==> |path| == |cwd| && |path| > 0
  {
    WithinPrefix(path, cwd, |Parent(path)|);
  }
}
