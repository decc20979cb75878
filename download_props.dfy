/**
 * What the checksum short-circuit and the download promise, and what they
 * do not: the digest is compared before fetching, never after.
 */
module DownloadProps {
  import opened Base
  import opened Fs
  import opened Manifest
  import opened Download

  /** The text of the file kept for `dep`, when its `uri` names one. */
  function DestOf(dep: Dependency, bp: string, lib: Library): string
    requires Filename(dep, lib).Ok?
  {
    Destination(bp, Filename(dep, lib).value)
  }

  /** The location that text names on `d`. */
  function DestLoc(dep: Dependency, bp: string, d: Disk, lib: Library): Path
    requires Filename(dep, lib).Ok?
  {
    Lookup(d.cwd, DestOf(dep, bp, lib))
  }

  /** Whether the kernel reaches a regular file for `dep` whose bytes have the expected digest. */
  predicate HoldsExpected(dep: Dependency, bp: string, d: Disk, lib: Library)
    requires Filename(dep, lib).Ok?
  {
    && Reaches(d, DestOf(dep, bp, lib))
    && DestLoc(dep, bp, d, lib) in d.files
    && Hex(lib.sha256(d.files[DestLoc(dep, bp, d, lib)])) == dep.sha256
  }

  /** The destination text leads to a directory and to no regular file. */
  predicate DestIsDir(dep: Dependency, bp: string, d: Disk, lib: Library)
    requires Filename(dep, lib).Ok?
  {
    Reaches(d, DestOf(dep, bp, lib)) && DestLoc(dep, bp, d, lib) in d.dirs && DestLoc(dep, bp, d, lib) !in d.files
  }

  /**
   * `checksum_matches` holds exactly when the destination text leads to a
   * regular file whose lower-case hex digest equals the stored one; it is
   * false when nothing is there or the file differs, and an error when the
   * text leads to a directory or the `uri` names no file.
   */
  lemma ChecksumMatchesExactly(dep: Dependency, bp: string, d: Disk, lib: Library)
    ensures ChecksumMatchesSpec(dep, bp, d, lib) == Ok(true) <==>
      Filename(dep, lib).Ok? && HoldsExpected(dep, bp, d, lib)
    ensures ChecksumMatchesSpec(dep, bp, d, lib) == Ok(false) <==>
      Filename(dep, lib).Ok? && !HoldsExpected(dep, bp, d, lib) && !DestIsDir(dep, bp, d, lib)
    ensures ChecksumMatchesSpec(dep, bp, d, lib).Err? <==>
      Filename(dep, lib).Err? || DestIsDir(dep, bp, d, lib)
    ensures ChecksumMatchesSpec(dep, bp, d, lib).Err? && Filename(dep, lib).Ok? ==>
      ChecksumMatchesSpec(dep, bp, d, lib) == Err(Io(DestOf(dep, bp, lib)))
  {
  }

  /**
   * A `uri` whose last path segment is empty (one ending in `/`) has the
   * destination `<binding>/binaries/`, which names `binaries` only when it
   * is a directory: when it is not, the check is false and `File::create`
   * fails; when it is, reading it fails.  On a disk where no location is
   * both a file and a directory, such a dependency is never downloaded,
   * nothing changes and nothing is fetched.
   */
  lemma {:induction false} EmptyFilenameNeverDownloads(dep: Dependency, bp: string, d: Disk, requests: seq<string>,
                                                       server: string -> Response, lib: Library)
    requires Filename(dep, lib) == Ok("")
    ensures var bin := JoinText(bp, Binaries);
            && DestOf(dep, bp, lib) == JoinText(bin, "")
            && DestLoc(dep, bp, d, lib) == Lookup(d.cwd, bin)
            && (!IsDirAt(d, bin) ==> ChecksumMatchesSpec(dep, bp, d, lib) == Ok(false))
            && (IsDirAt(d, bin) && Lookup(d.cwd, bin) !in d.files ==>
                  ChecksumMatchesSpec(dep, bp, d, lib) == Err(Io(DestOf(dep, bp, lib))))
            && (d.files.Keys !! d.dirs ==>
                  DownloadSpec(dep, bp, d, requests, server, lib) == Fetch(Fail(Io(DestOf(dep, bp, lib))), d, requests))
  {
    var bin := JoinText(bp, Binaries);
    assert bin != "";
    TrailingSlash(d, bin);
    ChecksumMatchesExactly(dep, bp, d, lib);
  }

  /**
   * A digest that is not lower-case hex of even length never matches, so a
   * dependency listed with such a digest (upper-case hex, say) is fetched
   * again on every run.
   */
  lemma NonHexDigestNeverMatches(dep: Dependency, bp: string, d: Disk, lib: Library)
    requires |dep.sha256| % 2 == 1 || exists i :: 0 <= i < |dep.sha256| && dep.sha256[i] !in HexDigits
    ensures ChecksumMatchesSpec(dep, bp, d, lib) != Ok(true)
  {
    if Filename(dep, lib).Ok? {
      var read := ReadAtStep(d, DestOf(dep, bp, lib));
      if read.Ok? {
        var h := Hex(lib.sha256(read.value));
        assert |h| % 2 == 0 && forall i :: 0 <= i < |h| ==> h[i] in HexDigits;
        assert h != dep.sha256;
      }
    }
  }

  /** A matching file short-circuits: no request is made and nothing on disk changes. */
  lemma SkipWhenMatching(dep: Dependency, bp: string, d: Disk, requests: seq<string>,
                         server: string -> Response, lib: Library)
    requires Filename(dep, lib).Ok? && HoldsExpected(dep, bp, d, lib)
    ensures DownloadSpec(dep, bp, d, requests, server, lib) == Fetch(Pass, d, requests)
  {
    ChecksumMatchesExactly(dep, bp, d, lib);
  }

  /** The conditions under which `File::create` succeeds on the text `dest`. */
  predicate Creatable(d: Disk, dest: string) {
    var loc := Lookup(d.cwd, dest);
    Reaches(d, dest) && loc != [] && loc !in d.dirs && Parent(loc) in d.dirs
  }

  /**
   * Otherwise the destination is created, or truncated, before the GET: when
   * the request is refused, the file is left empty and whatever it held is lost.
   */
  lemma {:induction false} TruncatedBeforeGet(dep: Dependency, bp: string, d: Disk, requests: seq<string>,
                                              server: string -> Response, lib: Library)
    requires Filename(dep, lib).Ok? && !HoldsExpected(dep, bp, d, lib)
    requires Creatable(d, DestOf(dep, bp, lib))
    requires server(dep.uri) == Refused
    ensures DownloadSpec(dep, bp, d, requests, server, lib)
            == Fetch(Fail(Http(dep.uri)), d.(files := d.files[DestLoc(dep, bp, d, lib) := []]), requests + [dep.uri])
  {
    ChecksumMatchesExactly(dep, bp, d, lib);
  }

  /**
   * A delivered body is kept whatever its digest: the download succeeds and
   * the file holds the body; whether it matches only shows on the next run.
   */
  lemma {:induction false} NoDigestCheckAfterDownload(dep: Dependency, bp: string, d: Disk, requests: seq<string>,
                                                      server: string -> Response, lib: Library, body: Bytes)
    requires Filename(dep, lib).Ok? && !HoldsExpected(dep, bp, d, lib)
    requires Creatable(d, DestOf(dep, bp, lib))
    requires server(dep.uri) == Body(body)
    ensures var f := DownloadSpec(dep, bp, d, requests, server, lib);
            && f == Fetch(Pass, d.(files := d.files[DestLoc(dep, bp, d, lib) := body]), requests + [dep.uri])
            && ChecksumMatchesSpec(dep, bp, f.disk, lib) == Ok(Hex(lib.sha256(body)) == dep.sha256)
  {
    ChecksumMatchesExactly(dep, bp, d, lib);
    var f := DownloadSpec(dep, bp, d, requests, server, lib);
    ChecksumMatchesExactly(dep, bp, f.disk, lib);
  }

  /**
   * Downloading again right after a download: when the body had the expected
   * digest, the second call is a no-op; when it had not, the second call
   * fetches the same `uri` again.
   */
  lemma {:induction false} SecondDownload(dep: Dependency, bp: string, d: Disk, requests: seq<string>,
                                          server: string -> Response, lib: Library, body: Bytes)
    requires Filename(dep, lib).Ok? && !HoldsExpected(dep, bp, d, lib)
    requires Creatable(d, DestOf(dep, bp, lib))
    requires server(dep.uri) == Body(body)
    ensures var f := DownloadSpec(dep, bp, d, requests, server, lib);
            var g := DownloadSpec(dep, bp, f.disk, f.requests, server, lib);
            && (Hex(lib.sha256(body)) == dep.sha256 ==> g == f)
            && (Hex(lib.sha256(body)) != dep.sha256 ==> g.requests == requests + [dep.uri, dep.uri] && g.disk == f.disk)
  {
    NoDigestCheckAfterDownload(dep, bp, d, requests, server, lib, body);
    var f := DownloadSpec(dep, bp, d, requests, server, lib);
    assert Creatable(f.disk, DestOf(dep, bp, lib));
    if Hex(lib.sha256(body)) != dep.sha256 {
      NoDigestCheckAfterDownload(dep, bp, f.disk, f.requests, server, lib, body);
      assert f.disk.files[DestLoc(dep, bp, d, lib) := body] == f.disk.files;
    }
  }

  /**
   * The two shapes a download takes: it either leaves the disk and the
   * requests as they were (succeeding only on a matching file), or it
   * creates the destination, asks once, and leaves the destination holding
   * whatever arrived.
   */
  lemma {:induction false} DownloadShape(dep: Dependency, bp: string, d: Disk, requests: seq<string>,
                                         server: string -> Response, lib: Library)
    requires Filename(dep, lib).Ok?
    ensures var f := DownloadSpec(dep, bp, d, requests, server, lib);
            var loc := DestLoc(dep, bp, d, lib);
            || (f.disk == d && f.requests == requests && (f.outcome.Pass? ==> HoldsExpected(dep, bp, d, lib)))
            || (&& Creatable(d, DestOf(dep, bp, lib))
                && loc in f.disk.files && f.disk == d.(files := d.files[loc := f.disk.files[loc]])
                && f.requests == requests + [dep.uri])
  {
    ChecksumMatchesExactly(dep, bp, d, lib);
    var dest, loc := DestOf(dep, bp, lib), DestLoc(dep, bp, d, lib);
    var f := DownloadSpec(dep, bp, d, requests, server, lib);
    if ChecksumMatchesSpec(dep, bp, d, lib) == Ok(false) {
      var created := CreateFileAtStep(d, dest, []);
      if created.outcome.Pass? {
        var e := d.(files := d.files[loc := []]);
        assert created.disk == e && Creatable(d, dest);
        var x := match server(dep.uri) case Refused => [] case Body(b) => b case Interrupted(prefix) => prefix;
        assert f.disk == d.(files := d.files[loc := x]);
      }
    }
  }

  /**
   * One download makes at most one request, for the dependency's own `uri`;
   * it changes no directory and no file but the destination, and on success
   * the destination is a file.
   */
  lemma {:induction false} DownloadFrame(dep: Dependency, bp: string, d: Disk, requests: seq<string>,
                                         server: string -> Response, lib: Library)
    ensures var f := DownloadSpec(dep, bp, d, requests, server, lib);
            && (f.requests == requests || f.requests == requests + [dep.uri])
            && f.disk.dirs == d.dirs && f.disk.cwd == d.cwd
            && d.files.Keys <= f.disk.files.Keys
            && (Filename(dep, lib).Err? ==> f.disk == d && f.requests == requests)
            && (Filename(dep, lib).Ok? ==>
                  && (forall q :: q in d.files && q != DestLoc(dep, bp, d, lib) ==> f.disk.files[q] == d.files[q])
                  && f.disk.files.Keys <= d.files.Keys + {DestLoc(dep, bp, d, lib)}
                  && (f.outcome.Pass? ==> Reaches(f.disk, DestOf(dep, bp, lib)) && DestLoc(dep, bp, d, lib) in f.disk.files))
  {
    if Filename(dep, lib).Ok? {
      DownloadShape(dep, bp, d, requests, server, lib);
      var f := DownloadSpec(dep, bp, d, requests, server, lib);
      if f.disk != d || f.requests != requests {
        assert Reaches(f.disk, DestOf(dep, bp, lib)) by {
          assert f.disk.dirs == d.dirs && f.disk.cwd == d.cwd;
        }
      }
    }
  }

  /** Without a worker nothing is fetched, yet the call succeeds. */
  lemma ZeroWorkersFetchNothing(deps: seq<Dependency>, bp: string, d: Disk, requests: seq<string>,
                                server: string -> Response, lib: Library)
    ensures DownloadAllSpec(deps, 0, bp, d, requests, server, lib) == Fetch(Pass, d, requests)
  {
  }

  /**
   * When one worker drains the list without a failure, every dependency's
   * file is present at the end; no file is ever removed; a failure is
   * reported as the panic of the dependency that failed.
   */
  lemma {:induction false} DrainFetchesEverything(deps: seq<Dependency>, bp: string, d: Disk, requests: seq<string>,
                                                  server: string -> Response, lib: Library)
    ensures var f := DrainSpec(deps, bp, d, requests, server, lib);
            && d.files.Keys <= f.disk.files.Keys
            && f.disk.dirs == d.dirs && f.disk.cwd == d.cwd
            && (f.outcome.Pass? ==>
                  forall i :: 0 <= i < |deps| ==>
                    Filename(deps[i], lib).Ok? && Reaches(f.disk, DestOf(deps[i], bp, lib)) && DestLoc(deps[i], bp, d, lib) in f.disk.files)
            && (f.outcome.Fail? ==> exists i :: 0 <= i < |deps| && f.outcome.error.Panicked? && f.outcome.error.uri == deps[i].uri)
    decreases |deps|
  {
    if deps != [] {
      var last := deps[|deps| - 1];
      var front := deps[..|deps| - 1];
      var g := DownloadSpec(last, bp, d, requests, server, lib);
      DownloadFrame(last, bp, d, requests, server, lib);
      if g.outcome.Pass? {
        DrainFetchesEverything(front, bp, g.disk, g.requests, server, lib);
        var f := DrainSpec(deps, bp, d, requests, server, lib);
        assert f == DrainSpec(front, bp, g.disk, g.requests, server, lib);
        if f.outcome.Pass? {
          forall i | 0 <= i < |deps|
            ensures Filename(deps[i], lib).Ok? && Reaches(f.disk, DestOf(deps[i], bp, lib)) && DestLoc(deps[i], bp, d, lib) in f.disk.files
          {
            if i < |deps| - 1 {
              assert deps[i] == front[i];
            }
          }
        } else {
          var i :| 0 <= i < |front| && f.outcome.error.Panicked? && f.outcome.error.uri == front[i].uri;
          assert front[i] == deps[i];
        }
      }
    }
  }
}
