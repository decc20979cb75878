/**
 * Reading the dependency list out of a buildpack's `buildpack.toml`, already
 * parsed into a TOML value: the array `metadata.dependencies`, each element a
 * table with a string `uri` and exactly one of `sha256` (the digest itself)
 * or `checksum` (`"sha256:<digest>"`).  Also the address a buildpack id is
 * fetched from.
 */
module Manifest {
  import opened Base

  /** A parsed TOML value; floats and datetimes keep their text and are never inspected. */
  datatype Value =
    | Str(s: string)
    | Int(i: int)
    | Float(text: string)
    | Bool(b: bool)
    | Datetime(text: string)
    | Array(items: seq<Value>)
    | Table(entries: map<string, Value>)

  datatype Dependency = Dependency(sha256: string, uri: string)

  datatype ManifestError =
    | NotATable            // "buildpack.toml format is invalid"
    | NoMetadata           // "no metadata present in buildpack.toml"
    | MetadataNotTable     // "metadata should be a table"
    | NoDependencies       // "no dependencies present"
    | DependenciesNotArray // "dependencies should be an array"
    | DependencyNotTable   // "dependency should be a table"
    | NoUri                // "uri field is required"
    | UriNotString         // "uri should be a string"
    | ChecksumRequired     // panic "sha256 or checksum field is required"
    | Sha256NotString      // "sha256 field should be a string"
    | ChecksumNotString    // "checksum field should be a string"
    | UnsupportedAlgorithm // panic "only sha256 algorithm is supported"
  {
    /** The two conditions the source reports by panicking rather than by returning an error. */
    predicate IsPanic() {
      this == ChecksumRequired || this == UnsupportedAlgorithm
    }
  }

  // ---------------------------------------------------------------------
  // transform

  /** The `metadata.dependencies` array of a manifest, or why there is none. */
  function DependencyArray(root: Value): (r: Result<seq<Value>, ManifestError>)
    ensures r.Ok? <==>
      && root.Table? && "metadata" in root.entries
      && root.entries["metadata"].Table? && "dependencies" in root.entries["metadata"].entries
      && root.entries["metadata"].entries["dependencies"].Array?
    ensures r.Ok? ==> r.value == root.entries["metadata"].entries["dependencies"].items
  {
    if !root.Table? then Err(NotATable)
    else if "metadata" !in root.entries then Err(NoMetadata)
    else
      var metadata := root.entries["metadata"];
      if !metadata.Table? then Err(MetadataNotTable)
      else if "dependencies" !in metadata.entries then Err(NoDependencies)
      else
        var deps := metadata.entries["dependencies"];
        if !deps.Array? then Err(DependenciesNotArray)
        else Ok(deps.items)
  }

  /** The digest a `checksum` text names, when its algorithm part is exactly `sha256`. */
  function ChecksumDigest(c: string): (r: Option<string>)
    ensures r.Some? <==> exists h :: c == "sha256:" + h
    ensures r.Some? ==> c == "sha256:" + r.value
  {
    match SplitOnce(c, ':')
    case Some((alg, h)) =>
      if alg == "sha256" then
        assert c == "sha256:" + h;
        Some(h)
      else
        assert forall h :: c != "sha256:" + h by {
          forall h ensures c != "sha256:" + h {
            SplitSha256(h);
          }
        }
        None
    case None =>
      assert forall h :: c != "sha256:" + h;
      None
  }

  /** `sha256:<h>` splits at its first `:` into the algorithm and `h`. */
  lemma SplitSha256(h: string)
    ensures SplitOnce("sha256:" + h, ':') == Some(("sha256", h))
  {
    assert "sha256:" + h == "sha256" + [':'] + h;
    SplitOnceJoin("sha256", ':', h);
  }

  /** One element of the dependency array, checked in the order the source checks it. */
  function ParseEntry(v: Value): (r: Result<Dependency, ManifestError>)
    ensures r.Ok? ==> v.Table? && "uri" in v.entries && v.entries["uri"] == Str(r.value.uri)
    ensures r.Ok? ==>
      || ("sha256" in v.entries && "checksum" !in v.entries && v.entries["sha256"] == Str(r.value.sha256))
      || ("checksum" in v.entries && "sha256" !in v.entries
          && v.entries["checksum"] == Str("sha256:" + r.value.sha256))
  {
    if !v.Table? then Err(DependencyNotTable)
    else if "uri" !in v.entries then Err(NoUri)
    else if !v.entries["uri"].Str? then Err(UriNotString)
    else
      var uri := v.entries["uri"].s;
      var hasSha := "sha256" in v.entries;
      var hasChecksum := "checksum" in v.entries;
      if hasSha == hasChecksum then Err(ChecksumRequired)
      else if hasSha then
        if v.entries["sha256"].Str? then Ok(Dependency(v.entries["sha256"].s, uri)) else Err(Sha256NotString)
      else if !v.entries["checksum"].Str? then Err(ChecksumNotString)
      else
        match ChecksumDigest(v.entries["checksum"].s)
        case Some(h) => Ok(Dependency(h, uri))
        case None => Err(UnsupportedAlgorithm)
  }

  /** The elements in order; the first failing element's error is the result. */
  function ParseAll(items: seq<Value>): Result<seq<Dependency>, ManifestError>
    decreases |items|
  {
    if items == [] then Ok([])
    else
      match ParseEntry(items[0])
      case Err(e) => Err(e)
      case Ok(d) =>
        match ParseAll(items[1..])
        case Err(e) => Err(e)
        case Ok(ds) => Ok([d] + ds)
  }

  /** What `transform` computes. */
  function Transformed(root: Value): Result<seq<Dependency>, ManifestError> {
    match DependencyArray(root)
    case Err(e) => Err(e)
    case Ok(items) => ParseAll(items)
  }

  /** `transform`: walk the array, pushing one dependency per element; stop at the first bad one. */
  method Transform(root: Value) returns (r: Result<seq<Dependency>, ManifestError>)
    ensures r == Transformed(root)
  {
    var header := DependencyArray(root);
    if header.Err? {
      return Err(header.error);
    }
    var items := header.value;
    var deps: seq<Dependency> := [];
    var i := 0;
    assert items[i..] == items;
    assert forall ds: seq<Dependency> :: deps + ds == ds;
    while i < |items|
      invariant 0 <= i <= |items|
      invariant ParseAll(items) == match ParseAll(items[i..])
                                   case Err(e) => Err(e)
                                   case Ok(ds) => Ok(deps + ds)
    {
      assert items[i..][1..] == items[i + 1..];
      var entry := ParseEntry(items[i]);
      if entry.Err? {
        return Err(entry.error);
      }
      assert ParseAll(items[i..]).Ok? ==> ParseAll(items[i..]).value == [entry.value] + ParseAll(items[i + 1..]).value;
      assert forall ds :: deps + ([entry.value] + ds) == (deps + [entry.value]) + ds;
      deps := deps + [entry.value];
      i := i + 1;
    }
    assert items[i..] == [];
    assert deps + [] == deps;
    r := Ok(deps);
  }

  // ---------------------------------------------------------------------
  // What transform promises

  /**
   * The array is accepted exactly when every element is; then there is one
   * dependency per element, in order; otherwise the error is the first bad
   * element's and no partial list is returned.
   */
  lemma {:induction false} ParseAllExactly(items: seq<Value>)
    ensures ParseAll(items).Ok? <==> forall i :: 0 <= i < |items| ==> ParseEntry(items[i]).Ok?
    ensures ParseAll(items).Ok? ==>
      |ParseAll(items).value| == |items|
      && forall i :: 0 <= i < |items| ==> ParseAll(items).value[i] == ParseEntry(items[i]).value
    ensures ParseAll(items).Err? ==>
      exists j :: 0 <= j < |items|
        && (forall i :: 0 <= i < j ==> ParseEntry(items[i]).Ok?)
        && ParseEntry(items[j]) == Err(ParseAll(items).error)
    decreases |items|
  {
    if items != [] {
      ParseAllExactly(items[1..]);
      if ParseEntry(items[0]).Ok? && ParseAll(items[1..]).Err? {
        var j :| 0 <= j < |items[1..]|
          && (forall i :: 0 <= i < j ==> ParseEntry(items[1..][i]).Ok?)
          && ParseEntry(items[1..][j]) == Err(ParseAll(items[1..]).error);
        assert forall i :: 0 <= i < j + 1 ==> ParseEntry(items[i]).Ok? by {
          forall i | 0 <= i < j + 1 ensures ParseEntry(items[i]).Ok? {
            if i > 0 { assert items[i] == items[1..][i - 1]; }
          }
        }
        assert items[j + 1] == items[1..][j];
      }
      if ParseEntry(items[0]).Ok? && ParseAll(items[1..]).Ok? {
        forall i | 0 < i < |items| ensures ParseEntry(items[i]).Ok? {
          assert items[i] == items[1..][i - 1];
        }
      }
    }
  }

  /** A manifest whose header is wrong never yields dependencies; the error says which part is wrong. */
  lemma TransformNeedsTheHeader(root: Value)
    ensures DependencyArray(root).Err? ==> Transformed(root) == Err(DependencyArray(root).error)
    ensures !root.Table? ==> Transformed(root) == Err(NotATable)
    ensures root.Table? && "metadata" !in root.entries ==> Transformed(root) == Err(NoMetadata)
    ensures root.Table? && "metadata" in root.entries && !root.entries["metadata"].Table? ==>
      Transformed(root) == Err(MetadataNotTable)
  {
  }

  /** A table holding a string `uri` and a string `sha256`, and nothing that contradicts them. */
  function Sha256Entry(d: Dependency): Value {
    Table(map["uri" := Str(d.uri), "sha256" := Str(d.sha256)])
  }

  /** The same dependency written with the newer `checksum = "sha256:..."` field. */
  function ChecksumEntry(d: Dependency): Value {
    Table(map["uri" := Str(d.uri), "checksum" := Str("sha256:" + d.sha256)])
  }

  /** A manifest listing `entries` under `metadata.dependencies`. */
  function ManifestOf(entries: seq<Value>): Value {
    Table(map["metadata" := Table(map["dependencies" := Array(entries)])])
  }

  lemma {:induction false} ChecksumOfDigest(h: string)
    ensures ChecksumDigest("sha256:" + h) == Some(h)
  {
    SplitSha256(h);
  }

  /** Both spellings of an entry are read back as the dependency they were made from. */
  lemma {:induction false} EntriesRoundTrip(d: Dependency)
    ensures ParseEntry(Sha256Entry(d)) == Ok(d)
    ensures ParseEntry(ChecksumEntry(d)) == Ok(d)
  {
    ChecksumOfDigest(d.sha256);
  }

  /** Writing dependencies into a manifest (either spelling, entry by entry) and transforming it gives them back. */
  lemma {:induction false} TransformRoundTrip(deps: seq<Dependency>, useChecksum: seq<bool>)
    requires |useChecksum| == |deps|
    ensures Transformed(ManifestOf(seq(|deps|, i requires 0 <= i < |deps| =>
              if useChecksum[i] then ChecksumEntry(deps[i]) else Sha256Entry(deps[i]))))
            == Ok(deps)
  {
    var entries := seq(|deps|, i requires 0 <= i < |deps| =>
                       if useChecksum[i] then ChecksumEntry(deps[i]) else Sha256Entry(deps[i]));
    forall i | 0 <= i < |deps| ensures ParseEntry(entries[i]) == Ok(deps[i]) {
      EntriesRoundTrip(deps[i]);
    }
    ParseAllExactly(entries);
    assert ParseAll(entries).value == deps;
  }

  /**
   * The entry-level error conditions: anything but a table; no `uri`; a `uri` that
   * is not a string; both or neither of `sha256` and `checksum`; a `sha256` that is
   * not a string; a `checksum` that is not a string, or whose algorithm part is
   * not exactly `sha256` (including a checksum with no `:`).
   */
  lemma {:induction false} EntryErrors(v: Value)
    ensures !v.Table? ==> ParseEntry(v) == Err(DependencyNotTable)
    ensures v.Table? && "uri" !in v.entries ==> ParseEntry(v) == Err(NoUri)
    ensures v.Table? && "uri" in v.entries && !v.entries["uri"].Str? ==> ParseEntry(v) == Err(UriNotString)
    ensures v.Table? && "uri" in v.entries && v.entries["uri"].Str? ==>
      (("sha256" in v.entries) == ("checksum" in v.entries) <==> ParseEntry(v) == Err(ChecksumRequired))
    ensures v.Table? && "uri" in v.entries && v.entries["uri"].Str?
            && "sha256" in v.entries && "checksum" !in v.entries ==>
      (ParseEntry(v) == Err(Sha256NotString) <==> !v.entries["sha256"].Str?)
    ensures v.Table? && "uri" in v.entries && v.entries["uri"].Str?
            && "checksum" in v.entries && "sha256" !in v.entries ==>
      && (!v.entries["checksum"].Str? ==> ParseEntry(v) == Err(ChecksumNotString))
      && (v.entries["checksum"].Str? ==>
            (ParseEntry(v) == Err(UnsupportedAlgorithm) <==> forall h :: v.entries["checksum"].s != "sha256:" + h))
  {
    if v.Table? && "uri" in v.entries && v.entries["uri"].Str? && "checksum" in v.entries
       && "sha256" !in v.entries && v.entries["checksum"].Str? {
      var c := v.entries["checksum"].s;
      if ChecksumDigest(c).Some? {
        assert c == "sha256:" + ChecksumDigest(c).value;
      }
    }
  }

  /** The manifests of the repository's tests with a malformed header, and the error each meets. */
  lemma TestHeaderErrors()
    ensures Transformed(Table(map["foo" := Str("bar")])) == Err(NoMetadata)
    ensures Transformed(Table(map["metadata" := Str("bar")])) == Err(MetadataNotTable)
    ensures Transformed(Table(map["metadata" := Table(map["configurations" := Array([Table(map["foo" := Str("bar")])])])]))
            == Err(NoDependencies)
    ensures Transformed(Table(map["metadata" := Table(map["dependencies" := Str("foo")])])) == Err(DependenciesNotArray)
    ensures Transformed(ManifestOf([Int(1), Int(2), Int(3)])) == Err(DependencyNotTable)
  {
  }

  /** The repository's tests with one malformed dependency entry, and the error each meets. */
  lemma TestEntryErrors()
    ensures ParseEntry(Table(map["uri" := Str("fake"), "foo" := Str("bar")])) == Err(ChecksumRequired)
    ensures ParseEntry(Table(map["uri" := Str("fake"), "checksum" := Str("bar"), "sha256" := Str("baz")]))
            == Err(ChecksumRequired)
    ensures ParseEntry(Table(map["uri" := Str("fake"), "sha256" := Int(1)])) == Err(Sha256NotString)
    ensures ParseEntry(Table(map["uri" := Str("fake"), "checksum" := Int(1)])) == Err(ChecksumNotString)
    ensures ParseEntry(Table(map["sha256" := Str("sha256"), "foo" := Str("bar")])) == Err(NoUri)
    ensures ParseEntry(Table(map["sha256" := Str("sha256"), "uri" := Int(1)])) == Err(UriNotString)
  {
  }

  /** A checksum naming an algorithm other than `sha256` is refused. */
  lemma {:induction false} OtherAlgorithmRefused(uri: string, alg: string, h: string)
    requires alg != "sha256" && ':' !in alg
    ensures ParseEntry(Table(map["uri" := Str(uri), "checksum" := Str(alg + ":" + h)])) == Err(UnsupportedAlgorithm)
  {
    assert alg + ":" + h == alg + [':'] + h;
    SplitOnceJoin(alg, ':', h);
  }

  /** A checksum whose algorithm part is `1` is refused (the repository's test). */
  lemma {:induction false} TestOtherAlgorithm()
    ensures ParseEntry(Table(map["uri" := Str("fake"), "checksum" := Str("1:fdfdff")])) == Err(UnsupportedAlgorithm)
  {
    OtherAlgorithmRefused("fake", "1", "fdfdff");
    assert "1" + ":" + "fdfdff" == "1:fdfdff";
  }

  /** A single bad entry fails the whole manifest, wherever it stands. */
  lemma {:induction false} OneBadEntrySpoilsAll(good: seq<Dependency>, bad: Value, rest: seq<Value>)
    requires ParseEntry(bad).Err?
    ensures Transformed(ManifestOf(seq(|good|, i requires 0 <= i < |good| => Sha256Entry(good[i])) + [bad] + rest))
            == Err(ParseEntry(bad).error)
  {
    var pre := seq(|good|, i requires 0 <= i < |good| => Sha256Entry(good[i]));
    var items := pre + [bad] + rest;
    forall i | 0 <= i < |good| ensures ParseEntry(items[i]).Ok? {
      EntriesRoundTrip(good[i]);
    }
    ParseAllExactly(items);
    assert items[|good|] == bad;
    assert ParseAll(items).Err?;
    var j :| 0 <= j < |items|
      && (forall i :: 0 <= i < j ==> ParseEntry(items[i]).Ok?)
      && ParseEntry(items[j]) == Err(ParseAll(items).error);
    if j < |good| {
      assert false;
    }
  }

  // ---------------------------------------------------------------------
  // The buildpack id -> manifest address mapping of parse_buildpack_toml_from_network

  const RawContent := "https://raw.githubusercontent.com/"

  /**
   * `id` is split at its first `@`: `b` is fetched from the `main` branch,
   * `b@v` from the ref `v`.  `splitn(2, ..)` yields one or two parts, so the
   * source's third arm cannot be taken.
   */
  function BuildpackUri(id: string): (r: string)
    ensures '@' !in id ==> r == RawContent + id + "/main/buildpack.toml"
  {
    var parts := SplitN2(id, '@');
    if |parts| == 1 then RawContent + parts[0] + "/main/buildpack.toml"
    else RawContent + parts[0] + "/" + parts[1] + "/buildpack.toml"
  }

  /** `b@v` names the ref `v`, whatever `v` holds (a later `@` included). */
  lemma {:induction false} BuildpackUriVersioned(b: string, v: string)
    requires '@' !in b
    ensures BuildpackUri(b + "@" + v) == RawContent + b + "/" + v + "/buildpack.toml"
  {
    assert b + "@" + v == b + ['@'] + v;
    SplitOnceJoin(b, '@', v);
  }
}
