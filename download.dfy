/**
 * Fetching a buildpack's dependencies into `<binding>/binaries/`: a
 * dependency whose file is already there with the expected SHA-256 digest is
 * skipped; otherwise the file is created (or truncated) and the body of an
 * HTTP GET of its `uri` is copied into it.
 *
 * URL parsing and SHA-256 (FIPS 180-4) are foreign functions, passed in as a
 * `Library`; the HTTP server is a function from URI to response held by the
 * `Network` object, which also records every request made.
 */
module Download {
  import opened Base
  import opened Fs
  import opened Manifest

  /** What the URL parser reports of a parsed URL: its path segments, absent for a cannot-be-a-base URL such as `data:`. */
  datatype Url = Url(pathSegments: Option<seq<string>>)

  datatype Library = Library(parseUrl: string -> Option<Url>, sha256: Bytes -> Bytes)

  datatype DownloadError =
    | BadUri(uri: string)                          // the URL parser refused the uri
    | NoPathSegments(uri: string)                  // "no path segments for <uri>"
    | NoPath(uri: string)                          // "no path for <uri>"
    | Io(path: string)                             // "cannot open file <path>" and failed reads
    | Http(uri: string)                            // the GET failed
    | CopyFailed                                   // "copy failed"
    | Panicked(uri: string, cause: DownloadError)  // "thread panic: Download of <uri> failed with error <cause>"

  // ---------------------------------------------------------------------
  // Dependency::filename

  /** The last path segment of the dependency's `uri`. */
  function Filename(dep: Dependency, lib: Library): (r: Result<string, DownloadError>)
    ensures r.Ok? <==>
      && lib.parseUrl(dep.uri).Some?
      && lib.parseUrl(dep.uri).value.pathSegments.Some?
      && |lib.parseUrl(dep.uri).value.pathSegments.value| > 0
    ensures r.Ok? ==>
      var segments := lib.parseUrl(dep.uri).value.pathSegments.value;
      r.value == segments[|segments| - 1]
  {
    match lib.parseUrl(dep.uri)
    case None => Err(BadUri(dep.uri))
    case Some(url) =>
      match url.pathSegments
      case None => Err(NoPathSegments(dep.uri))
      case Some(segments) =>
        if segments == [] then Err(NoPath(dep.uri)) else Ok(segments[|segments| - 1])
  }

  /** The repository's two examples: an `https` URL names its last segment; a `data:` URL has no path. */
  lemma FilenameExamples(lib: Library)
    requires lib.parseUrl("https://example.com/filename") == Some(Url(Some(["filename"])))
    requires lib.parseUrl("data:text/plain,HelloWorld") == Some(Url(None))
    ensures Filename(Dependency("", "https://example.com/filename"), lib) == Ok("filename")
    ensures Filename(Dependency("", "data:text/plain,HelloWorld"), lib)
            == Err(NoPathSegments("data:text/plain,HelloWorld"))
  {
  }

  const Binaries := "binaries"

  /**
   * The text of the file a dependency with file name `name` is kept in,
   * `<binding>/binaries/<name>`, joined as `Path::join` joins; an empty name
   * gives `<binding>/binaries/`, which names `binaries` only when it is a directory.
   */
  function Destination(bp: string, name: string): string {
    JoinText(JoinText(bp, Binaries), name)
  }

  // ---------------------------------------------------------------------
  // Lower-case hex, as `hex::encode` writes it

  const HexDigits := "0123456789abcdef"

  function Hex(b: Bytes): (r: string)
    ensures |r| == 2 * |b|
    ensures forall i :: 0 <= i < |r| ==> r[i] in HexDigits
  {
    if b == [] then ""
    else [HexDigits[b[0] as int / 16], HexDigits[b[0] as int % 16]] + Hex(b[1..])
  }

  /** Different byte strings have different hex texts: the encoding loses nothing. */
  lemma {:induction false} HexInjective(a: Bytes, b: Bytes)
    requires Hex(a) == Hex(b)
    ensures a == b
    decreases |a|
  {
    if a != [] {
      assert |b| == |a|;
      HexCons(a);
      HexCons(b);
      var x, y := a[0] as int, b[0] as int;
      HexDigitsDistinct(x / 16, y / 16);
      HexDigitsDistinct(x % 16, y % 16);
      SameDigits(x, y);
      HexInjective(a[1..], b[1..]);
      assert a == [a[0]] + a[1..] && b == [b[0]] + b[1..];
    }
  }

  /** The first two characters of a hex text encode the first byte; the rest encodes the rest. */
  lemma HexCons(b: Bytes)
    requires b != []
    ensures Hex(b)[0] == HexDigits[b[0] as int / 16] && Hex(b)[1] == HexDigits[b[0] as int % 16]
    ensures Hex(b)[2..] == Hex(b[1..])
  {
  }

  lemma HexDigitsDistinct(i: int, j: int)
    requires 0 <= i < 16 && 0 <= j < 16 && HexDigits[i] == HexDigits[j]
    ensures i == j
  {
  }

  lemma SameDigits(x: int, y: int)
    requires 0 <= x && 0 <= y && x / 16 == y / 16 && x % 16 == y % 16
    ensures x == y
  {
  }

  // ---------------------------------------------------------------------
  // Dependency::checksum_matches

  /**
   * Whether the file kept for `dep` is present and its digest, in lower-case
   * hex, equals the digest the manifest gives.
   */
  function ChecksumMatchesSpec(dep: Dependency, bp: string, d: Disk, lib: Library): (r: Result<bool, DownloadError>)
    ensures r.Ok? ==> Filename(dep, lib).Ok?
  {
    match Filename(dep, lib)
    case Err(e) => Err(e)
    case Ok(name) =>
      var dest := Destination(bp, name);
      if !ExistsAt(d, dest) then Ok(false)
      else
        match ReadAtStep(d, dest)
        case Err(_) => Err(Io(dest))
        case Ok(bytes) => Ok(Hex(lib.sha256(bytes)) == dep.sha256)
  }

  method ChecksumMatches(dep: Dependency, bp: string, fs: FileSystem, lib: Library) returns (r: Result<bool, DownloadError>)
    ensures r == ChecksumMatchesSpec(dep, bp, fs.Snapshot(), lib)
  {
    var name := Filename(dep, lib);
    if name.Err? {
      return Err(name.error);
    }
    var dest := Destination(bp, name.value);
    if !ExistsAt(fs.Snapshot(), dest) {
      return Ok(false);
    }
    var content := fs.ReadAt(dest);
    if content.Err? {
      return Err(Io(dest));
    }
    var hash := Hex(lib.sha256(content.value));
    r := Ok(hash == dep.sha256);
  }

  // ---------------------------------------------------------------------
  // Dependency::download

  /** A server's answer: a refused request, a full body, or a body cut off after `prefix`. */
  datatype Response = Refused | Body(bytes: Bytes) | Interrupted(prefix: Bytes)

  /** The result, the disk and the requests made so far, after a download. */
  datatype Fetch = Fetch(outcome: Outcome<DownloadError>, disk: Disk, requests: seq<string>)

  function DownloadSpec(dep: Dependency, bp: string, d: Disk, requests: seq<string>,
                        server: string -> Response, lib: Library): Fetch
  {
    match ChecksumMatchesSpec(dep, bp, d, lib)
    case Err(e) => Fetch(Fail(e), d, requests)
    case Ok(true) => Fetch(Pass, d, requests)
    case Ok(false) =>
      var dest := Destination(bp, Filename(dep, lib).value);
      var loc := Lookup(d.cwd, dest);
      var created := CreateFileAtStep(d, dest, []);
      if created.outcome.Fail? then Fetch(Fail(Io(dest)), d, requests)
      else
        var asked := requests + [dep.uri];
        match server(dep.uri)
        case Refused => Fetch(Fail(Http(dep.uri)), created.disk, asked)
        case Body(b) => Fetch(Pass, created.disk.(files := created.disk.files[loc := b]), asked)
        case Interrupted(prefix) =>
          Fetch(Fail(CopyFailed), created.disk.(files := created.disk.files[loc := prefix]), asked)
  }

  class Network {
    const server: string -> Response
    var requests: seq<string>

    constructor (server: string -> Response)
      ensures this.server == server && requests == []
    {
      this.server := server;
      requests := [];
    }

    /** An HTTP GET of `uri`. */
    method Get(uri: string) returns (response: Response)
      modifies this
      ensures response == server(uri)
      ensures requests == old(requests) + [uri]
    {
      response := server(uri);
      requests := requests + [uri];
    }
  }

  method DownloadOne(dep: Dependency, bp: string, fs: FileSystem, net: Network, lib: Library)
    returns (r: Outcome<DownloadError>)
    modifies fs, net
    ensures Fetch(r, fs.Snapshot(), net.requests)
            == DownloadSpec(dep, bp, old(fs.Snapshot()), old(net.requests), net.server, lib)
  {
    var matches := ChecksumMatches(dep, bp, fs, lib);
    if matches.Err? {
      return Fail(matches.error);
    }
    if matches.value {
      return Pass;
    }
    var dest := Destination(bp, Filename(dep, lib).value);
    var loc := Lookup(fs.cwd, dest);
    var created := fs.CreateFileAt(dest, []);
    if created.Fail? {
      return Fail(Io(dest));
    }
    var response := net.Get(dep.uri);
    match response
    case Refused =>
      r := Fail(Http(dep.uri));
    case Body(b) =>
      fs.WriteThrough(loc, b);
      r := Pass;
    case Interrupted(prefix) =>
      fs.WriteThrough(loc, prefix);
      r := Fail(CopyFailed);
  }

  // ---------------------------------------------------------------------
  // download_dependencies, with one worker

  /** One worker popping dependencies off the back of the list; its first failure ends it with a panic. */
  function DrainSpec(deps: seq<Dependency>, bp: string, d: Disk, requests: seq<string>,
                     server: string -> Response, lib: Library): Fetch
    decreases |deps|
  {
    if deps == [] then Fetch(Pass, d, requests)
    else
      var dep := deps[|deps| - 1];
      var f := DownloadSpec(dep, bp, d, requests, server, lib);
      if f.outcome.Fail? then Fetch(Fail(Panicked(dep.uri, f.outcome.error)), f.disk, f.requests)
      else DrainSpec(deps[..|deps| - 1], bp, f.disk, f.requests, server, lib)
  }

  /** With no worker nothing is fetched and the call reports success. */
  function DownloadAllSpec(deps: seq<Dependency>, workers: nat, bp: string, d: Disk, requests: seq<string>,
                           server: string -> Response, lib: Library): Fetch
  {
    if workers == 0 then Fetch(Pass, d, requests) else DrainSpec(deps, bp, d, requests, server, lib)
  }

  method DownloadAll(deps: seq<Dependency>, workers: nat, bp: string, fs: FileSystem, net: Network, lib: Library)
    returns (r: Outcome<DownloadError>)
    modifies fs, net
    ensures Fetch(r, fs.Snapshot(), net.requests)
            == DownloadAllSpec(deps, workers, bp, old(fs.Snapshot()), old(net.requests), net.server, lib)
  {
    if workers == 0 {
      return Pass;
    }
    var pending := deps;
    while pending != []
      invariant DrainSpec(pending, bp, fs.Snapshot(), net.requests, net.server, lib)
                == DrainSpec(deps, bp, old(fs.Snapshot()), old(net.requests), net.server, lib)
      decreases |pending|
    {
      var dep := pending[|pending| - 1];
      pending := pending[..|pending| - 1];
      var o := DownloadOne(dep, bp, fs, net, lib);
      if o.Fail? {
        return Fail(Panicked(dep.uri, o.error));
      }
    }
    r := Pass;
  }
}
