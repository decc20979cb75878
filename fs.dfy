/**
 * An abstract filesystem: regular files with byte contents, a set of
 * directories, and the process's current directory.  A location (`Path`) is
 * a sequence of names from the filesystem root; `[]` is the root itself.
 *
 * The program hands the operating system path TEXTS.  A text names a
 * location by a walk: from the root when it starts with `/`, otherwise from
 * the current directory, one `/`-separated piece at a time, where `""` and
 * `.` stay put, `..` goes up and a name goes down.  The kernel refuses the
 * text (ENOENT, ENOTDIR) unless it is non-empty and every piece is looked up
 * in a directory that exists.
 *
 * Each std::fs operation the binding tool uses is given as a pure step
 * function on a `Disk` value (used by the specifications) and as a method
 * of the `FileSystem` class (used by the imperative code), the latter proved
 * to perform the former.
 */
module Fs {
  import opened Base

  type Path = seq<string>

  datatype Disk = Disk(files: map<Path, Bytes>, dirs: set<Path>, cwd: Path) {

    /** A file or a directory is at the location. */
    predicate Exists(p: Path) {
      p in files || p in dirs
    }

    predicate IsDir(p: Path) {
      p in dirs
    }
  }

  /** The outcome of one filesystem call (the error names a location) and the disk after it. */
  datatype FsStep = FsStep(outcome: Outcome<Path>, disk: Disk)

  function Parent(p: Path): Path
    requires p != []
  {
    p[..|p| - 1]
  }

  /** `q` is `p` or lies below it. */
  predicate Under(q: Path, p: Path) {
    |p| <= |q| && q[..|p|] == p
  }

  /** A tree: the root is a directory, every entry's parent is a directory, no location is both. */
  ghost predicate WellFormed(d: Disk) {
    && [] in d.dirs
    && d.files.Keys !! d.dirs
    && (forall f :: f in d.files ==> f != [] && Parent(f) in d.dirs)
    && (forall x :: x in d.dirs && x != [] ==> Parent(x) in d.dirs)
  }

  // ---------------------------------------------------------------------
  // Path texts

  /**
   * Rust's `Path::join` on Unix: an absolute `s` replaces `base`; otherwise
   * `s` follows `base` after a `/`, which is left out when `base` is empty or
   * already ends with one (so joining `""` adds a trailing `/`).
   */
  function JoinText(base: string, s: string): string {
    if StartsWith(s, '/') then s
    else if base == "" || base[|base| - 1] == '/' then base + s
    else base + "/" + s
  }

  /** One piece of a walk: `""` and `.` stay, `..` goes up (the root is its own parent), a name goes down. */
  function StepTo(cur: Path, c: string): Path {
    if c == "" || c == "." then cur
    else if c == ".." then (if cur == [] then [] else Parent(cur))
    else cur + [c]
  }

  /** Where a walk over `pieces` from `cur` ends, whatever is on the disk. */
  function Resolve(cur: Path, pieces: seq<string>): Path
    decreases |pieces|
  {
    if pieces == [] then cur else Resolve(StepTo(cur, pieces[0]), pieces[1..])
  }

  /** Every piece of the walk is looked up in a directory of `dirs`. */
  predicate Reachable(dirs: set<Path>, cur: Path, pieces: seq<string>)
    decreases |pieces|
  {
    pieces == [] || (cur in dirs && Reachable(dirs, StepTo(cur, pieces[0]), pieces[1..]))
  }

  /** Where the walk of a text starts. */
  function Origin(cwd: Path, s: string): Path {
    if StartsWith(s, '/') then [] else cwd
  }

  /** The location a text names, seen from the directory `cwd`. */
  function Lookup(cwd: Path, s: string): Path {
    Resolve(Origin(cwd, s), Split(s, '/'))
  }

  /** The kernel resolves the text: it is not empty and every directory on the way exists. */
  predicate Reaches(d: Disk, s: string) {
    s != "" && Reachable(d.dirs, Origin(d.cwd, s), Split(s, '/'))
  }

  /** `Path::exists`: the kernel resolves the text and something is there. */
  predicate ExistsAt(d: Disk, s: string) {
    Reaches(d, s) && d.Exists(Lookup(d.cwd, s))
  }

  /** `Path::is_dir`. */
  predicate IsDirAt(d: Disk, s: string) {
    Reaches(d, s) && d.IsDir(Lookup(d.cwd, s))
  }

  lemma {:induction false} ResolveAppend(cur: Path, a: seq<string>, b: seq<string>)
    ensures Resolve(cur, a + b) == Resolve(Resolve(cur, a), b)
    decreases |a|
  {
    if a != [] {
      assert (a + b)[0] == a[0] && (a + b)[1..] == a[1..] + b;
      ResolveAppend(StepTo(cur, a[0]), a[1..], b);
    } else {
      assert a + b == b;
    }
  }

  lemma {:induction false} ReachableAppend(dirs: set<Path>, cur: Path, a: seq<string>, b: seq<string>)
    ensures Reachable(dirs, cur, a + b) <==> Reachable(dirs, cur, a) && Reachable(dirs, Resolve(cur, a), b)
    decreases |a|
  {
    if a != [] {
      assert (a + b)[0] == a[0] && (a + b)[1..] == a[1..] + b;
      ReachableAppend(dirs, StepTo(cur, a[0]), a[1..], b);
    } else {
      assert a + b == b;
    }
  }

  /** More directories never make a walk fail. */
  lemma {:induction false} ReachableGrows(dirs: set<Path>, more: set<Path>, cur: Path, pieces: seq<string>)
    requires dirs <= more && Reachable(dirs, cur, pieces)
    ensures Reachable(more, cur, pieces)
    decreases |pieces|
  {
    if pieces != [] {
      ReachableGrows(dirs, more, StepTo(cur, pieces[0]), pieces[1..]);
    }
  }

  /**
   * Joining a relative text `s` to a non-empty `base` walks `s` from where
   * `base` leads, and the kernel resolves the join exactly when it resolves
   * `base` and can walk `s` from there.
   */
  lemma {:induction false} JoinTextResolves(d: Disk, base: string, s: string)
    requires base != "" && !StartsWith(s, '/')
    ensures Lookup(d.cwd, JoinText(base, s)) == Resolve(Lookup(d.cwd, base), Split(s, '/'))
    ensures Reaches(d, JoinText(base, s))
            <==> Reaches(d, base) && Reachable(d.dirs, Lookup(d.cwd, base), Split(s, '/'))
  {
    var j := JoinText(base, s);
    var o := Origin(d.cwd, base);
    assert j[0] == base[0];
    assert Origin(d.cwd, j) == o;
    if base[|base| - 1] == '/' {
      var a := base[..|base| - 1];
      assert base == a + ['/'] + "";
      assert j == a + ['/'] + s;
      SplitJoin(a, '/', "");
      SplitJoin(a, '/', s);
      ResolveAppend(o, Split(a, '/'), [""]);
      ResolveAppend(o, Split(a, '/'), Split(s, '/'));
      ReachableAppend(d.dirs, o, Split(a, '/'), [""]);
      ReachableAppend(d.dirs, o, Split(a, '/'), Split(s, '/'));
    } else {
      assert j == base + ['/'] + s;
      SplitJoin(base, '/', s);
      ResolveAppend(o, Split(base, '/'), Split(s, '/'));
      ReachableAppend(d.dirs, o, Split(base, '/'), Split(s, '/'));
    }
  }

  /** A single name: joined to `base` it names the entry of that name in the directory `base` names. */
  predicate PlainName(s: string) {
    s != "" && '/' !in s && s != "." && s != ".."
  }

  lemma NameJoin(d: Disk, base: string, k: string)
    requires base != "" && PlainName(k)
    ensures Lookup(d.cwd, JoinText(base, k)) == Lookup(d.cwd, base) + [k]
    ensures Reaches(d, JoinText(base, k)) <==> IsDirAt(d, base)
  {
    JoinTextResolves(d, base, k);
    assert Split(k, '/') == [k];
  }

  // ---------------------------------------------------------------------
  // Steps on locations

  /** `File::create` followed by `write_all`: the file at `p` then holds exactly `content`. */
  function CreateFileStep(d: Disk, p: Path, content: Bytes): (r: FsStep)
    ensures r.outcome.Pass? <==> p != [] && p !in d.dirs && Parent(p) in d.dirs
    ensures r.outcome.Pass? ==> r.disk == d.(files := d.files[p := content])
    ensures r.outcome.Fail? ==> r == FsStep(Fail(p), d)
  {
    if p == [] || p in d.dirs || Parent(p) !in d.dirs then FsStep(Fail(p), d)
    else FsStep(Pass, d.(files := d.files[p := content]))
  }

  /**
   * `fs::copy(src, dst)`: the source must be a regular file; the destination
   * is opened with truncation before the bytes are copied, so copying a file
   * onto itself leaves it empty.
   */
  function CopyStep(d: Disk, src: Path, dst: Path): (r: FsStep)
    ensures r.outcome.Pass? <==> src in d.files && dst != [] && dst !in d.dirs && Parent(dst) in d.dirs
    ensures r.outcome.Pass? && src != dst ==> r.disk == d.(files := d.files[dst := d.files[src]])
    ensures r.outcome.Pass? ==> r.disk.dirs == d.dirs && r.disk.cwd == d.cwd && r.disk.files.Keys == d.files.Keys + {dst}
    ensures r.outcome.Fail? ==> r.disk == d
    ensures r.outcome == Fail(src) || r.outcome == Fail(dst) || r.outcome == Pass
  {
    if src !in d.files then FsStep(Fail(src), d)
    else if dst == [] || dst in d.dirs || Parent(dst) !in d.dirs then FsStep(Fail(dst), d)
    else FsStep(Pass, d.(files := d.files[dst := if src == dst then [] else d.files[src]]))
  }

  /** `File::open` followed by reading to the end: only a regular file yields bytes. */
  function ReadStep(d: Disk, p: Path): Result<Bytes, Path> {
    if p in d.files then Ok(d.files[p]) else Err(p)
  }

  /** `fs::remove_file`: only a regular file can be removed. */
  function RemoveFileStep(d: Disk, p: Path): (r: FsStep)
    ensures r.outcome.Pass? <==> p in d.files
    ensures r.outcome.Pass? ==> r.disk == d.(files := d.files - {p})
    ensures r.outcome.Fail? ==> r == FsStep(Fail(p), d)
  {
    if p !in d.files then FsStep(Fail(p), d)
    else FsStep(Pass, d.(files := d.files - {p}))
  }

  /** `fs::remove_dir_all`: the directory and everything below it disappear. */
  function RemoveDirAllStep(d: Disk, p: Path): (r: FsStep)
    ensures r.outcome.Pass? <==> p in d.dirs
    ensures r.outcome.Pass? ==> forall q :: Under(q, p) ==> !r.disk.Exists(q)
    ensures r.outcome.Pass? ==> forall q :: !Under(q, p) ==>
      (q in r.disk.files <==> q in d.files) && (q in d.files ==> r.disk.files[q] == d.files[q])
    ensures r.outcome.Pass? ==> forall q :: !Under(q, p) ==> (q in r.disk.dirs <==> q in d.dirs)
    ensures r.disk.cwd == d.cwd
    ensures r.outcome.Fail? ==> r == FsStep(Fail(p), d)
  {
    if p !in d.dirs then FsStep(Fail(p), d)
    else
      var files := map q | q in d.files && !Under(q, p) :: d.files[q];
      var dirs := set q | q in d.dirs && !Under(q, p);
      FsStep(Pass, d.(files := files, dirs := dirs))
  }

  // ---------------------------------------------------------------------
  // Steps on path texts

  /** `Path::canonicalize` of a text: the location it names, when the kernel resolves it and something is there. */
  function Canonicalize(d: Disk, s: string): (r: Option<Path>)
    ensures r.Some? <==> ExistsAt(d, s)
    ensures r.Some? ==> r.value == Lookup(d.cwd, s) && d.Exists(r.value)
  {
    if ExistsAt(d, s) then Some(Lookup(d.cwd, s)) else None
  }

  /**
   * A text that walks through `x` fails unless `x` names a directory, even
   * when a `..` would lexically lead back out of it (`x/../f` with `x`
   * missing) or nothing follows the `/` (`f/` with `f` a file).
   */
  lemma CanonicalizeNeedsDirectories(d: Disk, x: string, y: string)
    requires x != "" && !IsDirAt(d, x)
    ensures Canonicalize(d, x + "/" + y).None?
  {
    var s := x + "/" + y;
    assert s == x + ['/'] + y && s[0] == x[0];
    SplitJoin(x, '/', y);
    ReachableAppend(d.dirs, Origin(d.cwd, x), Split(x, '/'), Split(y, '/'));
  }

  /** A single name resolves in an existing current directory to its entry there, if it has one. */
  lemma CanonicalizeName(d: Disk, x: string)
    requires PlainName(x) && d.cwd in d.dirs
    ensures Canonicalize(d, x) == if d.Exists(d.cwd + [x]) then Some(d.cwd + [x]) else None
  {
    assert Split(x, '/') == [x];
    assert Origin(d.cwd, x) == d.cwd;
    assert Resolve(d.cwd, [x]) == Resolve(d.cwd + [x], []);
    assert Reachable(d.dirs, d.cwd + [x], []);
  }

  /** `File::create` then `write_all` on a text. */
  function CreateFileAtStep(d: Disk, s: string, content: Bytes): (r: FsStep)
    ensures var p := Lookup(d.cwd, s);
            && (r.outcome.Pass? <==> Reaches(d, s) && p != [] && p !in d.dirs && Parent(p) in d.dirs)
            && (r.outcome.Pass? ==> r.disk == d.(files := d.files[p := content]))
            && (r.outcome.Fail? ==> r == FsStep(Fail(p), d))
  {
    if Reaches(d, s) then CreateFileStep(d, Lookup(d.cwd, s), content)
    else FsStep(Fail(Lookup(d.cwd, s)), d)
  }

  /** `File::open` of a text followed by reading to the end: only a regular file the kernel reaches yields bytes. */
  function ReadAtStep(d: Disk, s: string): (r: Result<Bytes, Path>)
    ensures r.Ok? <==> Reaches(d, s) && Lookup(d.cwd, s) in d.files
    ensures r.Ok? ==> r.value == d.files[Lookup(d.cwd, s)]
  {
    if Reaches(d, s) then ReadStep(d, Lookup(d.cwd, s)) else Err(Lookup(d.cwd, s))
  }

  /**
   * A text joined with the empty name ends in `/`: it names the same
   * location as the text, and the kernel resolves it only when that location
   * is a directory.
   */
  lemma TrailingSlash(d: Disk, base: string)
    requires base != ""
    ensures Lookup(d.cwd, JoinText(base, "")) == Lookup(d.cwd, base)
    ensures Reaches(d, JoinText(base, "")) <==> IsDirAt(d, base)
  {
    JoinTextResolves(d, base, "");
    assert Split("", '/') == [""];
  }

  /** `fs::copy` from a location to a text. */
  function CopyToStep(d: Disk, src: Path, s: string): (r: FsStep)
    ensures var p := Lookup(d.cwd, s);
            && (r.outcome.Pass? <==> Reaches(d, s) && src in d.files && p != [] && p !in d.dirs && Parent(p) in d.dirs)
            && (r.outcome.Pass? ==> r.disk.dirs == d.dirs && r.disk.cwd == d.cwd && r.disk.files.Keys == d.files.Keys + {p})
            && (r.outcome.Pass? ==> p in r.disk.files && r.disk == d.(files := d.files[p := r.disk.files[p]]))
            && (r.outcome.Pass? && src != p ==> r.disk == d.(files := d.files[p := d.files[src]]))
            && (r.outcome.Fail? ==> r.disk == d)
  {
    if Reaches(d, s) then CopyStep(d, src, Lookup(d.cwd, s))
    else FsStep(Fail(Lookup(d.cwd, s)), d)
  }

  /** `fs::remove_file` of a text. */
  function RemoveFileAtStep(d: Disk, s: string): (r: FsStep)
    ensures var p := Lookup(d.cwd, s);
            && (r.outcome.Pass? <==> Reaches(d, s) && p in d.files)
            && (r.outcome.Pass? ==> r.disk == d.(files := d.files - {p}))
            && (r.outcome.Fail? ==> r == FsStep(Fail(p), d))
  {
    if Reaches(d, s) then RemoveFileStep(d, Lookup(d.cwd, s))
    else FsStep(Fail(Lookup(d.cwd, s)), d)
  }

  /** The last non-empty piece of a text's pieces, if any. */
  function LastName(pieces: seq<string>): Option<string>
    decreases |pieces|
  {
    if pieces == [] then None
    else if pieces[|pieces| - 1] != "" then Some(pieces[|pieces| - 1])
    else LastName(pieces[..|pieces| - 1])
  }

  /** The text ends in a name, not in `.`, `..` or bare slashes: `rmdir` refuses the others. */
  predicate EndsInName(s: string) {
    var n := LastName(Split(s, '/'));
    n.Some? && n.value != "." && n.value != ".."
  }

  /** A text that ends by joining a single name ends in that name. */
  lemma JoinNameEndsInName(base: string, n: string)
    requires PlainName(n)
    ensures EndsInName(JoinText(base, n))
  {
    assert Split(n, '/') == [n];
    if base != "" && base[|base| - 1] == '/' {
      var a := base[..|base| - 1];
      assert JoinText(base, n) == a + ['/'] + n;
      SplitJoin(a, '/', n);
    } else if base != "" {
      assert JoinText(base, n) == base + ['/'] + n;
      SplitJoin(base, '/', n);
    }
  }

  /**
   * `fs::remove_dir_all` of a text: it must name a directory; everything
   * below it is removed, and then the directory itself, which fails (EINVAL,
   * EBUSY) when the text ends in `.`, `..` or only slashes.
   */
  function RemoveDirAllAtStep(d: Disk, s: string): (r: FsStep)
    ensures var p := Lookup(d.cwd, s);
            && (r.outcome.Pass? <==> IsDirAt(d, s) && EndsInName(s))
            && (!IsDirAt(d, s) ==> r == FsStep(Fail(p), d))
            && (IsDirAt(d, s) ==>
                  && (forall q :: Under(q, p) && q != p ==> !r.disk.Exists(q))
                  && (p in r.disk.dirs <==> !EndsInName(s))
                  && (forall q :: !Under(q, p) ==>
                        (q in r.disk.files <==> q in d.files) && (q in d.files ==> r.disk.files[q] == d.files[q])
                        && (q in r.disk.dirs <==> q in d.dirs))
                  && r.disk.cwd == d.cwd)
  {
    var p := Lookup(d.cwd, s);
    if !IsDirAt(d, s) then FsStep(Fail(p), d)
    else if EndsInName(s) then RemoveDirAllStep(d, p)
    else
      var files := map q | q in d.files && !Under(q, p) :: d.files[q];
      var dirs := set q | q in d.dirs && (!Under(q, p) || q == p);
      FsStep(Fail(p), d.(files := files, dirs := dirs))
  }

  // ---------------------------------------------------------------------
  // create_dir_all

  /** The components `Path::components` yields for a text's pieces, less the root: `""` and `.` are dropped. */
  function Components(pieces: seq<string>): (r: seq<string>)
    ensures forall i :: 0 <= i < |r| ==> r[i] != "" && r[i] != "."
    decreases |pieces|
  {
    if pieces == [] then []
    else if pieces[0] == "" || pieces[0] == "." then Components(pieces[1..])
    else [pieces[0]] + Components(pieces[1..])
  }

  /** Dropping the pieces that stay put changes neither where a walk ends nor whether it gets there. */
  lemma {:induction false} ComponentsWalk(dirs: set<Path>, cur: Path, pieces: seq<string>)
    requires Reachable(dirs, cur, Components(pieces)) && Resolve(cur, Components(pieces)) in dirs
    ensures Reachable(dirs, cur, pieces) && Resolve(cur, pieces) == Resolve(cur, Components(pieces))
    decreases |pieces|
  {
    if pieces != [] {
      if pieces[0] == "" || pieces[0] == "." {
        ComponentsWalk(dirs, cur, pieces[1..]);
        if Components(pieces[1..]) == [] { assert cur in dirs; }
      } else {
        ComponentsWalk(dirs, StepTo(cur, pieces[0]), pieces[1..]);
      }
    }
  }

  /** The locations a walk over `comps` from `cur` passes through, after each step. */
  function Trail(cur: Path, comps: seq<string>): set<Path>
    decreases |comps|
  {
    if comps == [] then {} else {StepTo(cur, comps[0])} + Trail(StepTo(cur, comps[0]), comps[1..])
  }

  /**
   * Making each component a directory in turn, from `cur`: a component that
   * is already a directory is kept, `..` creates nothing, and the chain stops
   * at a regular file or at a step from something that is not a directory.
   * What was created before a failure stays.
   */
  function MakeDirs(d: Disk, cur: Path, comps: seq<string>): (r: FsStep)
    ensures r.disk.files == d.files && r.disk.cwd == d.cwd && d.dirs <= r.disk.dirs
    ensures r.disk.dirs <= d.dirs + Trail(cur, comps)
    ensures r.outcome.Pass? ==> Reachable(r.disk.dirs, cur, comps) && Resolve(cur, comps) in r.disk.dirs
    ensures r.outcome.Pass? ==> Trail(cur, comps) !! d.files.Keys
    decreases |comps|
  {
    if cur !in d.dirs then FsStep(Fail(cur), d)
    else if comps == [] then FsStep(Pass, d)
    else
      var next := StepTo(cur, comps[0]);
      if next in d.files then FsStep(Fail(next), d)
      else MakeDirs(if comps[0] == ".." then d else d.(dirs := d.dirs + {next}), next, comps[1..])
  }

  /** `fs::create_dir_all` of a text: nothing to do for the empty text, otherwise `MakeDirs` of its components. */
  function CreateDirAllStep(d: Disk, s: string): (r: FsStep)
    ensures r.disk.files == d.files && r.disk.cwd == d.cwd && d.dirs <= r.disk.dirs
    ensures r.disk.dirs <= d.dirs + Made(d.cwd, s)
  {
    if s == "" then FsStep(Pass, d) else MakeDirs(d, Origin(d.cwd, s), Components(Split(s, '/')))
  }

  /** The directories `create_dir_all` of `s` may create. */
  function Made(cwd: Path, s: string): set<Path> {
    if s == "" then {} else Trail(Origin(cwd, s), Components(Split(s, '/')))
  }

  /** After `create_dir_all` succeeds, the text names a directory the kernel reaches. */
  lemma CreateDirAllMakesTheDirectory(d: Disk, s: string)
    requires s != "" && CreateDirAllStep(d, s).outcome.Pass?
    ensures IsDirAt(CreateDirAllStep(d, s).disk, s)
    ensures Made(d.cwd, s) <= CreateDirAllStep(d, s).disk.dirs
  {
    var e := CreateDirAllStep(d, s).disk;
    var o := Origin(d.cwd, s);
    ComponentsWalk(e.dirs, o, Split(s, '/'));
    TrailReached(e.dirs, o, Components(Split(s, '/')));
  }

  lemma {:induction false} TrailReached(dirs: set<Path>, cur: Path, comps: seq<string>)
    requires Reachable(dirs, cur, comps) && Resolve(cur, comps) in dirs
    ensures Trail(cur, comps) <= dirs
    decreases |comps|
  {
    if comps != [] {
      TrailReached(dirs, StepTo(cur, comps[0]), comps[1..]);
      if comps[1..] == [] { assert StepTo(cur, comps[0]) == Resolve(cur, comps); }
    }
  }

  /**
   * On a tree, `MakeDirs` from a directory succeeds exactly when no location
   * on its trail is a regular file, and the result is again a tree.
   */
  lemma {:induction false} MakeDirsPasses(d: Disk, cur: Path, comps: seq<string>)
    requires WellFormed(d) && cur in d.dirs
    ensures MakeDirs(d, cur, comps).outcome.Pass? <==> Trail(cur, comps) !! d.files.Keys
    ensures WellFormed(MakeDirs(d, cur, comps).disk)
    decreases |comps|
  {
    if comps != [] {
      var next := StepTo(cur, comps[0]);
      if next !in d.files {
        var d' := if comps[0] == ".." then d else d.(dirs := d.dirs + {next});
        assert next in d'.dirs by {
          if comps[0] == ".." && cur != [] { assert Parent(cur) in d.dirs; }
        }
        assert WellFormed(d') by {
          if comps[0] != ".." && comps[0] != "" && comps[0] != "." {
            assert Parent(next) == cur;
          }
        }
        MakeDirsPasses(d', next, comps[1..]);
      }
    }
  }

  /** On a tree, `create_dir_all` succeeds exactly when it starts from a directory and meets no regular file. */
  lemma CreateDirAllPasses(d: Disk, s: string)
    requires WellFormed(d) && s != ""
    ensures CreateDirAllStep(d, s).outcome.Pass?
            <==> Origin(d.cwd, s) in d.dirs && Made(d.cwd, s) !! d.files.Keys
    ensures WellFormed(CreateDirAllStep(d, s).disk)
  {
    if Origin(d.cwd, s) in d.dirs {
      MakeDirsPasses(d, Origin(d.cwd, s), Components(Split(s, '/')));
    }
  }

  /** Without `..`, every location on the trail lies on the way to where the walk ends. */
  lemma {:induction false} TrailOfNames(cur: Path, comps: seq<string>)
    requires forall i :: 0 <= i < |comps| ==> comps[i] != ".." && comps[i] != "" && comps[i] != "."
    ensures Resolve(cur, comps) == cur + comps
    ensures forall x :: x in Trail(cur, comps) ==> Under(Resolve(cur, comps), x) && |x| > |cur|
    decreases |comps|
  {
    if comps == [] {
      assert cur + comps == cur;
    } else {
      TrailOfNames(cur + [comps[0]], comps[1..]);
      assert cur + [comps[0]] + comps[1..] == cur + comps;
      forall x | x in Trail(cur, comps) ensures Under(Resolve(cur, comps), x) && |x| > |cur| {
        if x == cur + [comps[0]] {
          assert (cur + comps)[..|x|] == x;
        }
      }
    }
  }

  /** Without a `..` component, `create_dir_all` creates only ancestors of the directory the text names. */
  lemma MadeAreAncestors(cwd: Path, s: string)
    requires ".." !in Components(Split(s, '/'))
    ensures forall x :: x in Made(cwd, s) ==> Under(Lookup(cwd, s), x) && |x| > |Origin(cwd, s)|
  {
    if s != "" {
      var o := Origin(cwd, s);
      var comps := Components(Split(s, '/'));
      TrailOfNames(o, comps);
      ResolveComponents(o, Split(s, '/'));
    }
  }

  lemma {:induction false} ResolveComponents(cur: Path, pieces: seq<string>)
    ensures Resolve(cur, pieces) == Resolve(cur, Components(pieces))
    decreases |pieces|
  {
    if pieces != [] {
      ResolveComponents(StepTo(cur, pieces[0]), pieces[1..]);
    }
  }

  /** Once every location on the trail is a directory, `MakeDirs` changes nothing. */
  lemma {:induction false} MakeDirsIdle(d: Disk, cur: Path, comps: seq<string>)
    requires Reachable(d.dirs, cur, comps) && Resolve(cur, comps) in d.dirs
    requires Trail(cur, comps) !! d.files.Keys
    ensures MakeDirs(d, cur, comps) == FsStep(Pass, d)
    decreases |comps|
  {
    if comps != [] {
      var next := StepTo(cur, comps[0]);
      assert next in d.dirs by {
        if comps[1..] == [] { assert next == Resolve(cur, comps); }
      }
      assert d.(dirs := d.dirs + {next}) == d;
      MakeDirsIdle(d, next, comps[1..]);
    }
  }

  // ---------------------------------------------------------------------
  // Every step on a location keeps the filesystem a tree.

  lemma CreateFileKeepsTree(d: Disk, p: Path, content: Bytes)
    requires WellFormed(d)
    ensures WellFormed(CreateFileStep(d, p, content).disk)
  {
  }

  lemma CopyKeepsTree(d: Disk, src: Path, dst: Path)
    requires WellFormed(d)
    ensures WellFormed(CopyStep(d, src, dst).disk)
  {
  }

  lemma RemoveFileKeepsTree(d: Disk, p: Path)
    requires WellFormed(d)
    ensures WellFormed(RemoveFileStep(d, p).disk)
  {
  }

  lemma RemoveDirAllKeepsTree(d: Disk, p: Path)
    requires WellFormed(d) && p != []
    ensures WellFormed(RemoveDirAllStep(d, p).disk)
  {
    var r := RemoveDirAllStep(d, p);
    if r.outcome.Pass? {
      assert !Under([], p);
      forall x | x in r.disk.dirs && x != [] ensures Parent(x) in r.disk.dirs {
        assert !Under(x, p);
      }
      forall f | f in r.disk.files ensures Parent(f) in r.disk.dirs {
        assert !Under(f, p);
      }
    }
  }

  // ---------------------------------------------------------------------
  // The mutable filesystem the imperative code works on.

  class FileSystem {
    var files: map<Path, Bytes>
    var dirs: set<Path>
    var cwd: Path

    constructor (d: Disk)
      ensures Snapshot() == d
    {
      files, dirs, cwd := d.files, d.dirs, d.cwd;
    }

    function Snapshot(): Disk
      reads this
    {
      Disk(files, dirs, cwd)
    }

    function Exists(p: Path): (b: bool)
      reads this
      ensures b == Snapshot().Exists(p)
    {
      p in files || p in dirs
    }

    /** `fs::create_dir_all(s)`: one component at a time, as `MakeDirs` does. */
    method CreateDirAll(s: string) returns (r: Outcome<Path>)
      modifies this
      ensures FsStep(r, Snapshot()) == CreateDirAllStep(old(Snapshot()), s)
    {
      if s == "" {
        return Pass;
      }
      var comps := Components(Split(s, '/'));
      var cur := Origin(cwd, s);
      var i := 0;
      while i < |comps|
        invariant 0 <= i <= |comps|
        invariant MakeDirs(Snapshot(), cur, comps[i..]) == CreateDirAllStep(old(Snapshot()), s)
      {
        assert comps[i..][0] == comps[i] && comps[i..][1..] == comps[i + 1..];
        if cur !in dirs {
          return Fail(cur);
        }
        var next := StepTo(cur, comps[i]);
        if next in files {
          return Fail(next);
        }
        if comps[i] != ".." {
          dirs := dirs + {next};
        }
        cur := next;
        i := i + 1;
      }
      if cur !in dirs {
        return Fail(cur);
      }
      r := Pass;
    }

    /** `File::create(p)` then `write_all(content)`. */
    method CreateFile(p: Path, content: Bytes) returns (r: Outcome<Path>)
      modifies this
      ensures FsStep(r, Snapshot()) == CreateFileStep(old(Snapshot()), p, content)
    {
      if p == [] || p in dirs || Parent(p) !in dirs {
        r := Fail(p);
      } else {
        files := files[p := content];
        r := Pass;
      }
    }

    /** `File::create(s)` then `write_all(content)`, on a text. */
    method CreateFileAt(s: string, content: Bytes) returns (r: Outcome<Path>)
      modifies this
      ensures FsStep(r, Snapshot()) == CreateFileAtStep(old(Snapshot()), s, content)
    {
      if !Reaches(Snapshot(), s) {
        return Fail(Lookup(cwd, s));
      }
      r := CreateFile(Lookup(cwd, s), content);
    }

    method Read(p: Path) returns (r: Result<Bytes, Path>)
      ensures r == ReadStep(Snapshot(), p)
    {
      if p in files {
        r := Ok(files[p]);
      } else {
        r := Err(p);
      }
    }

    method ReadAt(s: string) returns (r: Result<Bytes, Path>)
      ensures r == ReadAtStep(Snapshot(), s)
    {
      if !Reaches(Snapshot(), s) {
        return Err(Lookup(cwd, s));
      }
      r := Read(Lookup(cwd, s));
    }

    /** Writing through a handle already open on the regular file `p`: it then holds `content`. */
    method WriteThrough(p: Path, content: Bytes)
      requires p in files
      modifies this
      ensures Snapshot() == old(Snapshot()).(files := old(files)[p := content])
    {
      files := files[p := content];
    }

    method CopyTo(src: Path, s: string) returns (r: Outcome<Path>)
      modifies this
      ensures FsStep(r, Snapshot()) == CopyToStep(old(Snapshot()), src, s)
    {
      var dst := Lookup(cwd, s);
      if !Reaches(Snapshot(), s) {
        return Fail(dst);
      }
      if src !in files {
        r := Fail(src);
      } else if dst == [] || dst in dirs || Parent(dst) !in dirs {
        r := Fail(dst);
      } else {
        var bytes := if src == dst then [] else files[src];
        files := files[dst := bytes];
        r := Pass;
      }
    }

    method RemoveFileAt(s: string) returns (r: Outcome<Path>)
      modifies this
      ensures FsStep(r, Snapshot()) == RemoveFileAtStep(old(Snapshot()), s)
    {
      var p := Lookup(cwd, s);
      if !Reaches(Snapshot(), s) || p !in files {
        return Fail(p);
      }
      files := files - {p};
      r := Pass;
    }

    method RemoveDirAllAt(s: string) returns (r: Outcome<Path>)
      modifies this
      ensures FsStep(r, Snapshot()) == RemoveDirAllAtStep(old(Snapshot()), s)
    {
      var p := Lookup(cwd, s);
      if !IsDirAt(Snapshot(), s) {
        return Fail(p);
      }
      files := map q | q in files && !Under(q, p) :: files[q];
      if EndsInName(s) {
        dirs := set q | q in dirs && !Under(q, p);
        r := Pass;
      } else {
        dirs := set q | q in dirs && (!Under(q, p) || q == p);
        r := Fail(p);
      }
    }
  }
}
