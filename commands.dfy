/**
 * The pure pieces of the command layer: recognising a subcommand name, and
 * building the `key=value` pairs the `ca-certs` and `dependency-mapping`
 * commands hand to `add_bindings`.
 */
module Commands {
  import opened Base
  import opened Fs
  import opened Manifest
  import opened Download
  import opened Bindings

  datatype Command = Add | Args | CaCerts | Delete | DependencyMapping | Init

  /** The name a subcommand is invoked by. */
  function CommandName(c: Command): string {
    match c
    case Add => "add"
    case Args => "args"
    case CaCerts => "ca-certs"
    case Delete => "delete"
    case DependencyMapping => "dependency-mapping"
    case Init => "init"
  }

  /** The error is "could not part argument" (sic). */
  datatype CommandError = Unrecognized(input: string)

  /** `Command::from_str`: exactly the six subcommand names are recognised. */
  function ParseCommand(s: string): (r: Result<Command, CommandError>)
    ensures r.Ok? ==> CommandName(r.value) == s
    ensures r.Err? ==> r.error == Unrecognized(s) && forall c :: CommandName(c) != s
  {
    if s == "add" then Ok(Add)
    else if s == "delete" then Ok(Delete)
    else if s == "ca-certs" then Ok(CaCerts)
    else if s == "dependency-mapping" then Ok(DependencyMapping)
    else if s == "args" then Ok(Args)
    else if s == "init" then Ok(Init)
    else Err(Unrecognized(s))
  }

  /** The earlier `Command::from_str`, which has no `init`. */
  function ParseLegacyCommand(s: string): (r: Result<Command, CommandError>)
    ensures r.Ok? ==> r.value != Init && CommandName(r.value) == s
    ensures r.Err? ==> r.error == Unrecognized(s) && forall c :: c != Init ==> CommandName(c) != s
  {
    if s == "add" then Ok(Add)
    else if s == "delete" then Ok(Delete)
    else if s == "ca-certs" then Ok(CaCerts)
    else if s == "dependency-mapping" then Ok(DependencyMapping)
    else if s == "args" then Ok(Args)
    else Err(Unrecognized(s))
  }

  /** Every subcommand is recognised by its own name, and by no other. */
  lemma ParseCommandRoundTrip(c: Command, s: string)
    ensures ParseCommand(CommandName(c)) == Ok(c)
    ensures ParseCommand(s) == Ok(c) <==> s == CommandName(c)
  {
  }

  /** The two parsers agree except on `init`, which only the later one knows. */
  lemma LegacyAgreesButInit(s: string)
    ensures ParseLegacyCommand(s) == if s == "init" then Err(Unrecognized(s)) else ParseCommand(s)
  {
  }

  // ---------------------------------------------------------------------
  // Path::file_name

  /** The components of a split path text that name something: no empty pieces and no `.`. */
  function NamedParts(pieces: seq<string>): (r: seq<string>)
    ensures forall i :: 0 <= i < |r| ==> r[i] != "" && r[i] != "." && r[i] in pieces
  {
    if pieces == [] then []
    else
      var rest := NamedParts(pieces[1..]);
      if pieces[0] == "" || pieces[0] == "." then rest else [pieces[0]] + rest
  }

  /**
   * Rust's `Path::file_name` of a `/`-separated path text: the last
   * component, or nothing when the path is empty, is the root, or ends in `..`.
   */
  function FileName(path: string): (r: Option<string>)
    ensures r.Some? ==> r.value != "" && r.value != "." && r.value != ".." && '/' !in r.value
  {
    var parts := NamedParts(Split(path, '/'));
    if parts == [] || parts[|parts| - 1] == ".." then None else Some(parts[|parts| - 1])
  }

  lemma {:induction false} NamedPartsAppend(a: seq<string>, b: seq<string>)
    ensures NamedParts(a + b) == NamedParts(a) + NamedParts(b)
    decreases |a|
  {
    if a == [] {
      assert a + b == b;
    } else {
      assert (a + b)[1..] == a[1..] + b;
      NamedPartsAppend(a[1..], b);
    }
  }

  /** A file name after a directory path is the path's file name, whatever the directory. */
  lemma {:induction false} FileNameOfJoin(dir: string, name: string)
    requires name != "" && name != "." && name != ".." && '/' !in name
    ensures FileName(dir + "/" + name) == Some(name)
  {
    var s := dir + "/" + name;
    assert s == dir + ['/'] + name;
    assert Split(s, '/') == Split(dir, '/') + [name] by {
      SplitAppend(dir, name);
    }
    NamedPartsAppend(Split(dir, '/'), [name]);
    assert NamedParts([name]) == [name];
  }

  lemma {:induction false} SplitAppend(a: string, b: string)
    requires '/' !in b
    ensures Split(a + ['/'] + b, '/') == Split(a, '/') + [b]
    decreases |a|
  {
    var s := a + ['/'] + b;
    match SplitOnce(a, '/')
    case None =>
      SplitOnceJoin(a, '/', b);
      assert Split(s, '/') == [a] + Split(b, '/');
      assert SplitOnce(b, '/').None?;
    case Some((x, y)) =>
      assert s == x + ['/'] + (y + ['/'] + b);
      SplitOnceJoin(x, '/', y + ['/'] + b);
      assert Split(s, '/') == [x] + Split(y + ['/'] + b, '/');
      SplitAppend(y, b);
  }

  // ---------------------------------------------------------------------
  // The ca-certs pairs

  /** The pair for the `i`th certificate path `c`, as the source builds it. */
  function CertPair(i: nat, c: string): string {
    match FileName(c)
    case Some(f) => f + "=@" + c
    case None => "cert-" + NatToString(i) + "=@" + c
  }

  /** `cert_args`: one pair per certificate, in order (the same in both copies of the handler). */
  function CertArgs(certs: seq<string>): (r: seq<string>)
    ensures |r| == |certs|
    ensures forall i :: 0 <= i < |certs| ==> r[i] == CertPair(i, certs[i])
  {
    seq(|certs|, i requires 0 <= i < |certs| => CertPair(i, certs[i]))
  }

  /**
   * When the certificate's file name has no `=`, `add_binding` splits its
   * pair back into that file name and `@` followed by the path: the key is
   * the file name and the value is copied from the certificate.
   */
  lemma {:induction false} CertPairSplits(i: nat, c: string)
    ensures FileName(c).Some? && '=' !in FileName(c).value ==>
      SplitOnce(CertPair(i, c), '=') == Some((FileName(c).value, "@" + c))
    ensures FileName(c).None? ==>
      SplitOnce(CertPair(i, c), '=') == Some(("cert-" + NatToString(i), "@" + c))
  {
    match FileName(c)
    case Some(f) =>
      if '=' !in f {
        assert f + "=@" + c == f + ['='] + ("@" + c);
        SplitOnceJoin(f, '=', "@" + c);
      }
    case None =>
      var k := "cert-" + NatToString(i);
      assert '=' !in k by {
        assert forall j :: 0 <= j < |NatToString(i)| ==> IsDigit(NatToString(i)[j]);
      }
      assert k + "=@" + c == k + ['='] + ("@" + c);
      SplitOnceJoin(k, '=', "@" + c);
  }

  /**
   * A certificate whose file name holds `=` is mis-split: for a path
   * `<dir>/a=b` (`/certs/a=b.pem`, say) the key becomes `a` and the value
   * `b=@<dir>/a=b`, which does not start with `@` unless `b` does, so the key
   * file receives that literal text instead of the certificate.
   */
  lemma {:induction false} CertPairWithEqualsIsMisSplit(p: BindingProcessor, i: nat, dir: string, a: string, b: string)
    requires p.bindingType == Some("ca-certificates")
    requires '=' !in a && '/' !in a && '/' !in b
    ensures var c := dir + "/" + (a + "=" + b);
            && FileName(c) == Some(a + "=" + b)
            && p.WriterFor(CertPair(i, c))
               == Some(BindingWriter(p.BindingPath("ca-certificates"), "ca-certificates", a, b + "=@" + c))
            && (StartsWith(b + "=@" + c, '@') <==> StartsWith(b, '@'))
  {
    var f := a + "=" + b;
    var c := dir + "/" + f;
    assert '/' !in f;
    assert f[|a|] == '=';
    FileNameOfJoin(dir, f);
    assert CertPair(i, c) == a + ['='] + (b + "=@" + c);
    SplitOnceJoin(a, '=', b + "=@" + c);
    if b == "" {
      assert (b + "=@" + c)[0] == '=';
    } else {
      assert (b + "=@" + c)[0] == b[0];
    }
  }

  /** The key a certificate should get: its file name when that can serve as a key, else `cert-<i>`. */
  function CertKey(i: nat, c: string): (k: string)
    ensures '=' !in k && k != ""
  {
    match FileName(c)
    case Some(f) =>
      if '=' !in f then f
      else
        var k := "cert-" + NatToString(i);
        assert forall j :: 0 <= j < |NatToString(i)| ==> IsDigit(NatToString(i)[j]);
        assert k[..5] == "cert-";
        k
    case None =>
      var k := "cert-" + NatToString(i);
      assert forall j :: 0 <= j < |NatToString(i)| ==> IsDigit(NatToString(i)[j]);
      assert k[..5] == "cert-";
      k
  }

  /**
   * Two certificates at different positions that both fall back to
   * `cert-<i>` get different keys, so neither overwrites the other.
   */
  lemma CertKeyDistinct(i: nat, a: string, j: nat, b: string)
    requires i != j
    requires FileName(a).None? || '=' in FileName(a).value
    requires FileName(b).None? || '=' in FileName(b).value
    ensures CertKey(i, a) != CertKey(j, b)
  {
    var s, t := "cert-" + NatToString(i), "cert-" + NatToString(j);
    assert CertKey(i, a) == s && CertKey(j, b) == t;
    if s == t {
      assert s[5..] == NatToString(i) && t[5..] == NatToString(j);
      NatToStringInjective(i, j);
    }
  }

  /** The corrected pair builder. */
  function CertArgsFixed(certs: seq<string>): (r: seq<string>)
    ensures |r| == |certs|
    ensures forall i :: 0 <= i < |certs| ==> r[i] == CertKey(i, certs[i]) + "=@" + certs[i]
  {
    seq(|certs|, i requires 0 <= i < |certs| => CertKey(i, certs[i]) + "=@" + certs[i])
  }

  /**
   * Every corrected pair splits back into its key and `@` plus the certificate
   * path, so each certificate is copied under a key of its own choosing; the
   * key is the file name whenever the source's key was right.
   */
  lemma {:induction false} CertArgsFixedSplits(certs: seq<string>, i: nat)
    requires i < |certs|
    ensures SplitOnce(CertArgsFixed(certs)[i], '=') == Some((CertKey(i, certs[i]), "@" + certs[i]))
    ensures FileName(certs[i]).Some? && '=' !in FileName(certs[i]).value ==>
      CertArgsFixed(certs)[i] == CertArgs(certs)[i]
  {
    var k := CertKey(i, certs[i]);
    assert k + "=@" + certs[i] == k + ['='] + ("@" + certs[i]);
    SplitOnceJoin(k, '=', "@" + certs[i]);
  }

  // ---------------------------------------------------------------------
  // The dependency-mapping pairs

  /** The pair mapping a dependency's digest to the file it was downloaded to, as seen inside a container. */
  function MappingPair(dep: Dependency, name: string, lib: Library): Option<string> {
    match Filename(dep, lib)
    case Ok(f) => Some(dep.sha256 + "=file:///bindings/" + name + "/binaries/" + f)
    case Err(_) => None
  }

  /** `deps_args`: the pairs of the dependencies whose `uri` names a file, in order; the others are dropped. */
  function DepsArgs(deps: seq<Dependency>, name: string, lib: Library): (r: seq<string>)
    ensures |r| <= |deps|
    decreases |deps|
  {
    if deps == [] then []
    else
      var rest := DepsArgs(deps[1..], name, lib);
      match MappingPair(deps[0], name, lib)
      case Some(pair) => [pair] + rest
      case None => rest
  }

  /** A single dependency contributes its pair when its `uri` names a file, and nothing otherwise. */
  lemma DepsArgsOne(dep: Dependency, name: string, lib: Library)
    ensures Filename(dep, lib).Ok? ==>
      DepsArgs([dep], name, lib) == [dep.sha256 + "=file:///bindings/" + name + "/binaries/" + Filename(dep, lib).value]
    ensures Filename(dep, lib).Err? ==> DepsArgs([dep], name, lib) == []
  {
    assert [dep][1..] == [];
  }

  /**
   * The pairs of a concatenation are those of its parts, in order: with
   * `DepsArgsOne` this fixes the result for every list, each named
   * dependency contributing its pair in its place.
   */
  lemma {:induction false} DepsArgsAppend(a: seq<Dependency>, b: seq<Dependency>, name: string, lib: Library)
    ensures DepsArgs(a + b, name, lib) == DepsArgs(a, name, lib) + DepsArgs(b, name, lib)
    decreases |a|
  {
    if a == [] {
      assert a + b == b;
    } else {
      assert (a + b)[0] == a[0];
      assert (a + b)[1..] == a[1..] + b;
      DepsArgsAppend(a[1..], b, name, lib);
    }
  }

  /** The `j`th pair comes from some dependency. */
  lemma {:induction false} DepsArgsFrom(deps: seq<Dependency>, name: string, lib: Library, j: nat)
    requires j < |DepsArgs(deps, name, lib)|
    ensures exists i :: 0 <= i < |deps| && MappingPair(deps[i], name, lib) == Some(DepsArgs(deps, name, lib)[j])
    decreases |deps|
  {
    var r := DepsArgs(deps, name, lib);
    var rest := DepsArgs(deps[1..], name, lib);
    if MappingPair(deps[0], name, lib).Some? && j == 0 {
      assert MappingPair(deps[0], name, lib) == Some(r[j]);
    } else {
      var k := if MappingPair(deps[0], name, lib).Some? then j - 1 else j;
      assert r[j] == rest[k];
      DepsArgsFrom(deps[1..], name, lib, k);
      var i :| 0 <= i < |deps[1..]| && MappingPair(deps[1..][i], name, lib) == Some(rest[k]);
      assert deps[1..][i] == deps[i + 1];
      assert MappingPair(deps[i + 1], name, lib) == Some(r[j]);
    }
  }

  /** When every `uri` names a file there is exactly one pair per dependency, in order. */
  lemma {:induction false} DepsArgsAllNamed(deps: seq<Dependency>, name: string, lib: Library)
    requires forall i :: 0 <= i < |deps| ==> Filename(deps[i], lib).Ok?
    ensures |DepsArgs(deps, name, lib)| == |deps|
    ensures forall i :: 0 <= i < |deps| ==> Some(DepsArgs(deps, name, lib)[i]) == MappingPair(deps[i], name, lib)
    decreases |deps|
  {
    if deps != [] {
      assert forall i :: 0 <= i < |deps[1..]| ==> deps[1..][i] == deps[i + 1];
      DepsArgsAllNamed(deps[1..], name, lib);
      var r := DepsArgs(deps, name, lib);
      var rest := DepsArgs(deps[1..], name, lib);
      assert MappingPair(deps[0], name, lib).Some?;
      assert r == [MappingPair(deps[0], name, lib).value] + rest;
      forall i | 0 < i < |deps| ensures Some(r[i]) == MappingPair(deps[i], name, lib) {
        assert r[i] == rest[i - 1];
        assert deps[1..][i - 1] == deps[i];
      }
    }
  }

  /** When no `uri` names a file there are no pairs. */
  lemma {:induction false} DepsArgsNoneNamed(deps: seq<Dependency>, name: string, lib: Library)
    requires forall i :: 0 <= i < |deps| ==> Filename(deps[i], lib).Err?
    ensures DepsArgs(deps, name, lib) == []
    decreases |deps|
  {
    if deps != [] {
      assert forall i :: 0 <= i < |deps[1..]| ==> deps[1..][i] == deps[i + 1];
      DepsArgsNoneNamed(deps[1..], name, lib);
    }
  }

  /**
   * Every pair comes from some dependency; when every `uri` names a file
   * there is exactly one pair per dependency, in order; when none does,
   * there are no pairs.
   */
  lemma DepsArgsExactly(deps: seq<Dependency>, name: string, lib: Library)
    ensures forall j :: 0 <= j < |DepsArgs(deps, name, lib)| ==>
      exists i :: 0 <= i < |deps| && MappingPair(deps[i], name, lib) == Some(DepsArgs(deps, name, lib)[j])
    ensures (forall i :: 0 <= i < |deps| ==> Filename(deps[i], lib).Ok?) ==>
      |DepsArgs(deps, name, lib)| == |deps|
      && forall i :: 0 <= i < |deps| ==> Some(DepsArgs(deps, name, lib)[i]) == MappingPair(deps[i], name, lib)
    ensures (forall i :: 0 <= i < |deps| ==> Filename(deps[i], lib).Err?) ==> DepsArgs(deps, name, lib) == []
  {
    forall j | 0 <= j < |DepsArgs(deps, name, lib)|
      ensures exists i :: 0 <= i < |deps| && MappingPair(deps[i], name, lib) == Some(DepsArgs(deps, name, lib)[j])
    {
      DepsArgsFrom(deps, name, lib, j);
    }
    if forall i :: 0 <= i < |deps| ==> Filename(deps[i], lib).Ok? {
      DepsArgsAllNamed(deps, name, lib);
    }
    if forall i :: 0 <= i < |deps| ==> Filename(deps[i], lib).Err? {
      DepsArgsNoneNamed(deps, name, lib);
    }
  }

  /**
   * A digest without `=` comes back as the key, and the value is the literal
   * `file://` address of the downloaded file (it does not start with `@`, so
   * `add_binding` writes it as text).
   */
  lemma {:induction false} MappingPairSplits(dep: Dependency, name: string, lib: Library)
    requires Filename(dep, lib).Ok? && '=' !in dep.sha256
    ensures var value := "file:///bindings/" + name + "/binaries/" + Filename(dep, lib).value;
            && SplitOnce(MappingPair(dep, name, lib).value, '=') == Some((dep.sha256, value))
            && !StartsWith(value, '@')
  {
    var value := "file:///bindings/" + name + "/binaries/" + Filename(dep, lib).value;
    assert MappingPair(dep, name, lib).value == dep.sha256 + ['='] + value;
    SplitOnceJoin(dep.sha256, '=', value);
  }
}
