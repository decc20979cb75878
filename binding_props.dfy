/**
 * What adding and deleting bindings guarantees, stated on the
 * specifications of module Bindings (which the imperative BindingProcessor
 * methods are proved to follow).
 *
 * Binding directories and keys are path texts joined as `Path::join` joins
 * them.  The general lemmas speak of the locations those texts name; the
 * lemmas about the usual case, a key that is a single name, speak of
 * `<binding directory> + [key]`.
 */
module BindingProps {
  import opened Base
  import opened Fs
  import opened Confirm
  import opened Bindings

  /** A pair `k=v` is split at its first `=`, so a key without `=` comes back intact. */
  lemma {:induction false} WriterOfPair(p: BindingProcessor, k: string, v: string)
    requires p.bindingType.Some? && '=' !in k
    ensures p.WriterFor(k + "=" + v)
            == Some(BindingWriter(p.BindingPath(p.bindingType.value), p.bindingType.value, k, v))
  {
    SplitOnceJoin(k, '=', v);
    assert k + "=" + v == k + ['='] + v;
  }

  // ---------------------------------------------------------------------
  // add_binding

  /** Without a type, or with a pair that has no `=`, nothing is written and nobody is asked. */
  lemma AddRejectsBeforeAnyEffect(p: BindingProcessor, kv: string, d: Disk, t: Tty)
    ensures p.bindingType.None? ==> p.AddBindingSpec(kv, d, t) == Effect(Fail(TypeRequired), d, t)
    ensures p.bindingType.Some? && '=' !in kv ==>
      p.AddBindingSpec(kv, d, t) == Effect(Fail(MalformedPair(kv)), d, t)
  {
  }

  /**
   * The binding directory is the root joined with the name when one is
   * given, with the type otherwise: an absolute name replaces the root, and
   * a single name is the entry of that name in the directory the root names.
   */
  lemma BindingDirectory(p: BindingProcessor, k: string, v: string, d: Disk)
    requires p.bindingType.Some? && '=' !in k
    ensures p.WriterFor(k + "=" + v).Some?
    ensures var w := p.WriterFor(k + "=" + v).value;
            var n := if p.bindingName.Some? then p.bindingName.value else p.bindingType.value;
            && w.path == JoinText(p.bindingsHome, n)
            && w.key == k
            && (StartsWith(n, '/') ==> w.path == n)
            && (p.bindingsHome != "" && PlainName(n) ==>
                  && Lookup(d.cwd, w.path) == Lookup(d.cwd, p.bindingsHome) + [n]
                  && (Reaches(d, w.path) <==> IsDirAt(d, p.bindingsHome)))
  {
    WriterOfPair(p, k, v);
    var n := if p.bindingName.Some? then p.bindingName.value else p.bindingType.value;
    if p.bindingsHome != "" && PlainName(n) {
      NameJoin(d, p.bindingsHome, n);
    }
  }

  /** Whether the overwrite gate lets the write go ahead, and the terminal after asking. */
  function Gate(p: BindingProcessor, d: Disk, kp: string, t: Tty): (bool, Tty) {
    if ExistsAt(d, kp) then p.confirmer.Decide(OverwritePrompt, t) else (true, t)
  }

  /** `add_binding` of `k=v` once the pair is split: the gate, then the write. */
  lemma {:induction false} AddUnfolds(p: BindingProcessor, k: string, v: string, d: Disk, t: Tty)
    requires p.bindingType.Some? && '=' !in k
    ensures var w := BindingWriter(p.BindingPath(p.bindingType.value), p.bindingType.value, k, v);
            var g := Gate(p, d, w.KeyPath(), t);
            p.AddBindingSpec(k + "=" + v, d, t)
            == if !g.0 then Effect(Fail(AlreadyExists), d, g.1)
               else Effect(w.WriteSpec(d).outcome, w.WriteSpec(d).disk, g.1)
  {
    WriterOfPair(p, k, v);
  }

  /** An existing key and a declined confirmation: an error, and the disk is exactly as before. */
  lemma {:induction false} AddDeclinedKeepsDisk(p: BindingProcessor, k: string, v: string, d: Disk, t: Tty)
    requires p.bindingType.Some? && '=' !in k
    requires ExistsAt(d, JoinText(p.BindingPath(p.bindingType.value), k))
    requires !p.confirmer.Decide(OverwritePrompt, t).0
    ensures p.AddBindingSpec(k + "=" + v, d, t)
            == Effect(Fail(AlreadyExists), d, p.confirmer.Decide(OverwritePrompt, t).1)
  {
    WriterOfPair(p, k, v);
  }

  /**
   * The conditions under which the filesystem lets a write of the single
   * name `k` into the binding directory `bp` go through: `create_dir_all`
   * succeeds, and neither `type` nor the key is then a directory.
   */
  predicate Writable(d: Disk, bp: string, k: string) {
    var s := CreateDirAllStep(d, bp);
    var loc := Lookup(d.cwd, bp);
    && bp != "" && PlainName(k)
    && s.outcome.Pass?
    && loc + [TypeFile] !in s.disk.dirs
    && loc + [k] !in s.disk.dirs
  }

  /** A write whose directory is made and whose `type` can be written gets past `type`; what remains is the key. */
  lemma {:induction false} WriteUnfolds(w: BindingWriter, d: Disk)
    requires w.path != "" && CreateDirAllStep(d, w.path).outcome.Pass?
    requires Lookup(d.cwd, w.path) + [TypeFile] !in CreateDirAllStep(d, w.path).disk.dirs
    ensures var d2 := Disk(d.files[Lookup(d.cwd, w.path) + [TypeFile] := Utf8(w.bType)],
                           CreateDirAllStep(d, w.path).disk.dirs, d.cwd);
            w.WriteSpec(d) == if StartsWith(w.value, '@') then w.WriteKeyAsFileSpec(d2) else w.WriteKeyAsValueSpec(d2)
  {
    var s1 := CreateDirAllStep(d, w.path);
    CreateDirAllMakesTheDirectory(d, w.path);
    NameJoin(s1.disk, w.path, TypeFile);
    assert Parent(Lookup(d.cwd, w.path) + [TypeFile]) == Lookup(d.cwd, w.path);
  }

  /**
   * A literal value: on success `type` holds the type's bytes, the key holds
   * the value's bytes, no other file changes and the directories are those
   * `create_dir_all` left.
   */
  lemma {:induction false} AddWritesTypeAndValue(p: BindingProcessor, k: string, v: string, d: Disk, t: Tty)
    requires p.bindingType.Some? && '=' !in k && !StartsWith(v, '@')
    requires Writable(d, p.BindingPath(p.bindingType.value), k)
    requires Gate(p, d, JoinText(p.BindingPath(p.bindingType.value), k), t).0
    ensures var bpt := p.BindingPath(p.bindingType.value);
            var bp := Lookup(d.cwd, bpt);
            p.AddBindingSpec(k + "=" + v, d, t)
            == Effect(Pass,
                      Disk(d.files[bp + [TypeFile] := Utf8(p.bindingType.value)][bp + [k] := Utf8(v)],
                           CreateDirAllStep(d, bpt).disk.dirs, d.cwd),
                      Gate(p, d, JoinText(bpt, k), t).1)
  {
    var bpt := p.BindingPath(p.bindingType.value);
    var bp := Lookup(d.cwd, bpt);
    var w := BindingWriter(bpt, p.bindingType.value, k, v);
    var s1 := CreateDirAllStep(d, bpt);
    AddUnfolds(p, k, v, d, t);
    WriteUnfolds(w, d);
    var d2 := Disk(d.files[bp + [TypeFile] := Utf8(w.bType)], s1.disk.dirs, d.cwd);
    CreateDirAllMakesTheDirectory(d, bpt);
    assert IsDirAt(d2, bpt);
    NameJoin(d2, bpt, k);
    assert Parent(bp + [k]) == bp;
  }

  /**
   * A value `@src` whose source resolves to a regular file other than the
   * two files being written: on success the key holds a copy of that file's bytes.
   */
  lemma {:induction false} AddCopiesSourceFile(p: BindingProcessor, k: string, v: string, d: Disk, t: Tty)
    requires p.bindingType.Some? && '=' !in k && StartsWith(v, '@')
    requires var bpt := p.BindingPath(p.bindingType.value);
             var bp := Lookup(d.cwd, bpt);
             var sp := Canonicalize(d, TrimStartMatches(v, '@'));
             && Writable(d, bpt, k)
             && sp.Some? && sp.value in d.files && sp.value != bp + [TypeFile] && sp.value != bp + [k]
    requires Gate(p, d, JoinText(p.BindingPath(p.bindingType.value), k), t).0
    ensures var bpt := p.BindingPath(p.bindingType.value);
            var bp := Lookup(d.cwd, bpt);
            var sp := Canonicalize(d, TrimStartMatches(v, '@')).value;
            p.AddBindingSpec(k + "=" + v, d, t)
            == Effect(Pass,
                      Disk(d.files[bp + [TypeFile] := Utf8(p.bindingType.value)][bp + [k] := d.files[sp]],
                           CreateDirAllStep(d, bpt).disk.dirs, d.cwd),
                      Gate(p, d, JoinText(bpt, k), t).1)
  {
    var bpt := p.BindingPath(p.bindingType.value);
    var bp := Lookup(d.cwd, bpt);
    var w := BindingWriter(bpt, p.bindingType.value, k, v);
    var s1 := CreateDirAllStep(d, bpt);
    var src := w.SourceText();
    AddUnfolds(p, k, v, d, t);
    WriteUnfolds(w, d);
    var d2 := Disk(d.files[bp + [TypeFile] := Utf8(w.bType)], s1.disk.dirs, d.cwd);
    ReachableGrows(d.dirs, d2.dirs, Origin(d.cwd, src), Split(src, '/'));
    assert Canonicalize(d2, src) == Canonicalize(d, src);
    CreateDirAllMakesTheDirectory(d, bpt);
    assert IsDirAt(d2, bpt);
    NameJoin(d2, bpt, k);
    assert Parent(bp + [k]) == bp;
  }

  /**
   * The directory and `type` are written before the key: when the `@`
   * source is not there the call fails, yet `type` has been written.
   */
  lemma {:induction false} TypeWrittenBeforeKey(p: BindingProcessor, k: string, v: string, d: Disk, t: Tty)
    requires p.bindingType.Some? && '=' !in k && StartsWith(v, '@')
    requires var bpt := p.BindingPath(p.bindingType.value);
             var bp := Lookup(d.cwd, bpt);
             var sp := Lookup(d.cwd, TrimStartMatches(v, '@'));
             && Writable(d, bpt, k)
             && !d.Exists(sp) && sp != bp + [TypeFile] && sp !in CreateDirAllStep(d, bpt).disk.dirs
    requires Gate(p, d, JoinText(p.BindingPath(p.bindingType.value), k), t).0
    ensures var bp := Lookup(d.cwd, p.BindingPath(p.bindingType.value));
            var e := p.AddBindingSpec(k + "=" + v, d, t);
            && e.outcome == Fail(SourceNotFound(TrimStartMatches(v, '@')))
            && e.disk.files == d.files[bp + [TypeFile] := Utf8(p.bindingType.value)]
  {
    var bpt := p.BindingPath(p.bindingType.value);
    var bp := Lookup(d.cwd, bpt);
    var w := BindingWriter(bpt, p.bindingType.value, k, v);
    AddUnfolds(p, k, v, d, t);
    WriteUnfolds(w, d);
    var d2 := Disk(d.files[bp + [TypeFile] := Utf8(w.bType)], CreateDirAllStep(d, bpt).disk.dirs, d.cwd);
    assert !d2.Exists(Lookup(d.cwd, w.SourceText()));
    assert Canonicalize(d2, w.SourceText()).None?;
  }

  /** Writing the key fails when the kernel cannot reach it or a directory is there. */
  lemma KeyWriteFails(w: BindingWriter, d: Disk)
    requires !Reaches(d, w.KeyPath()) || Lookup(d.cwd, w.KeyPath()) in d.dirs
    ensures (if StartsWith(w.value, '@') then w.WriteKeyAsFileSpec(d) else w.WriteKeyAsValueSpec(d)).outcome.Fail?
  {
  }

  /** So does the whole write, when that holds once the binding directory has been made. */
  lemma WriteFailsAtTheKey(w: BindingWriter, d: Disk)
    requires var s1 := CreateDirAllStep(d, w.path);
             !Reaches(s1.disk, w.KeyPath()) || Lookup(d.cwd, w.KeyPath()) in s1.disk.dirs
    ensures w.WriteSpec(d).outcome.Fail?
  {
    var s1 := CreateDirAllStep(d, w.path);
    if s1.outcome.Pass? {
      var s2 := w.WriteTypeSpec(s1.disk);
      if s2.outcome.Pass? {
        assert s2.disk.dirs == s1.disk.dirs && s2.disk.cwd == d.cwd;
        KeyWriteFails(w, s2.disk);
      }
    }
  }

  /**
   * The empty key (`=v`): joining `""` only adds a `/`, so the key names the
   * binding directory itself.  When that directory exists the overwrite
   * question is asked; declined under `Never`, and under any approval the
   * write fails, since a directory is neither created nor copied onto.
   */
  lemma {:induction false} EmptyKeyNamesTheBinding(p: BindingProcessor, v: string, d: Disk, t: Tty)
    requires p.bindingType.Some?
    requires p.BindingPath(p.bindingType.value) != "" && IsDirAt(d, p.BindingPath(p.bindingType.value))
    ensures var e := p.AddBindingSpec("=" + v, d, t);
            && e.outcome.Fail?
            && (p.confirmer == Never ==> e == Effect(Fail(AlreadyExists), d, t))
  {
    var bpt := p.BindingPath(p.bindingType.value);
    var bp := Lookup(d.cwd, bpt);
    var w := BindingWriter(bpt, p.bindingType.value, "", v);
    assert "=" + v == "" + "=" + v;
    AddUnfolds(p, "", v, d, t);
    JoinTextResolves(d, bpt, "");
    assert Split("", '/') == [""];
    assert Resolve(bp, [""]) == Resolve(bp, []);
    assert Lookup(d.cwd, w.KeyPath()) == bp;
    assert ExistsAt(d, w.KeyPath());
    WriteFailsAtTheKey(w, d);
  }

  /**
   * A key with a `/` after the name `x` (`x/y=v`) walks through `x` inside
   * the binding directory: unless that is a directory already, nobody is
   * asked and the write fails (`create_dir_all` makes only the binding
   * directory and its ancestors).
   */
  lemma {:induction false} NestedKeyNeedsItsDirectory(p: BindingProcessor, x: string, y: string, v: string, d: Disk, t: Tty)
    requires p.bindingType.Some? && PlainName(x) && '=' !in x && '=' !in y
    requires var bpt := p.BindingPath(p.bindingType.value);
             && bpt != ""
             && Lookup(d.cwd, bpt) + [x] !in d.dirs + Made(d.cwd, bpt)
    ensures var e := p.AddBindingSpec(x + "/" + y + "=" + v, d, t);
            e.outcome.Fail? && e.tty == t
  {
    var bpt := p.BindingPath(p.bindingType.value);
    var k := x + "/" + y;
    var w := BindingWriter(bpt, p.bindingType.value, k, v);
    assert '=' !in k;
    assert x + "/" + y + "=" + v == k + "=" + v;
    AddUnfolds(p, k, v, d, t);
    NestedKeyUnreachable(d, bpt, x, y);
    NestedKeyUnreachable(CreateDirAllStep(d, bpt).disk, bpt, x, y);
    WriteFailsAtTheKey(w, d);
  }

  /** The kernel reaches `<bp>/x/y` only through a directory `x` inside `bp`. */
  lemma NestedKeyUnreachable(d: Disk, bpt: string, x: string, y: string)
    requires bpt != "" && PlainName(x) && Lookup(d.cwd, bpt) + [x] !in d.dirs
    ensures !Reaches(d, JoinText(bpt, x + "/" + y))
  {
    var k := x + "/" + y;
    assert k == x + ['/'] + y && k[0] == x[0];
    SplitJoin(x, '/', y);
    assert Split(x, '/') == [x];
    var rest := Split(y, '/');
    assert Split(k, '/') == [x] + rest;
    JoinTextResolves(d, bpt, k);
    assert ([x] + rest)[0] == x && ([x] + rest)[1..] == rest;
  }

  /** No file outside `ps` changes from `d` to `e`, and no file appears outside `ps`. */
  predicate ChangesAtMost(d: Disk, e: Disk, ps: set<Path>) {
    && (forall q :: q in d.files && q !in ps ==> q in e.files && e.files[q] == d.files[q])
    && e.files.Keys <= d.files.Keys + ps
  }

  lemma ChangesAtMostTrans(d1: Disk, d2: Disk, d3: Disk, a: set<Path>, b: set<Path>)
    requires ChangesAtMost(d1, d2, a) && ChangesAtMost(d2, d3, b)
    ensures ChangesAtMost(d1, d3, a + b)
  {
  }

  /** Writing the key, as text or as a copy, changes no file but the one the key names, and no directory. */
  lemma {:induction false} KeyWriteFrame(w: BindingWriter, d: Disk)
    ensures var e := if StartsWith(w.value, '@') then w.WriteKeyAsFileSpec(d) else w.WriteKeyAsValueSpec(d);
            ChangesAtMost(d, e.disk, {Lookup(d.cwd, w.KeyPath())}) && e.disk.dirs == d.dirs && e.disk.cwd == d.cwd
  {
  }

  /**
   * What `BindingWriter::write` can change: the files `type` and the key
   * name, and directories `create_dir_all` of the binding directory makes.
   */
  lemma {:induction false} WriteTouchesOnlyTypeAndKey(w: BindingWriter, d: Disk)
    ensures var e := w.WriteSpec(d);
      && ChangesAtMost(d, e.disk, {Lookup(d.cwd, w.TypePath()), Lookup(d.cwd, w.KeyPath())})
      && d.dirs <= e.disk.dirs && e.disk.dirs <= d.dirs + Made(d.cwd, w.path)
      && e.disk.cwd == d.cwd
  {
    var e := w.WriteSpec(d);
    var tl := Lookup(d.cwd, w.TypePath());
    var kl := Lookup(d.cwd, w.KeyPath());
    var s1 := CreateDirAllStep(d, w.path);
    if s1.outcome.Pass? {
      var s2 := w.WriteTypeSpec(s1.disk);
      assert ChangesAtMost(d, s2.disk, {tl});
      if s2.outcome.Pass? {
        KeyWriteFrame(w, s2.disk);
        ChangesAtMostTrans(d, s2.disk, e.disk, {tl}, {kl});
      }
    }
    assert ChangesAtMost(d, e.disk, {tl, kl});
  }

  /** Whatever happens, only `type` and the key may change, and new directories come from `create_dir_all`. */
  lemma {:induction false} AddTouchesOnlyTypeAndKey(p: BindingProcessor, kv: string, d: Disk, t: Tty)
    ensures p.WriterFor(kv).None? ==> p.AddBindingSpec(kv, d, t).disk == d
    ensures p.WriterFor(kv).Some? ==>
      var w := p.WriterFor(kv).value;
      var e := p.AddBindingSpec(kv, d, t);
      && ChangesAtMost(d, e.disk, {Lookup(d.cwd, w.TypePath()), Lookup(d.cwd, w.KeyPath())})
      && d.dirs <= e.disk.dirs && e.disk.dirs <= d.dirs + Made(d.cwd, w.path)
      && e.disk.cwd == d.cwd
  {
    if p.WriterFor(kv).Some? {
      WriteTouchesOnlyTypeAndKey(p.WriterFor(kv).value, d);
    }
  }

  /**
   * In the usual case, a key that is a single name and a binding directory
   * reached without `..`, an add changes no file but `type` and the key
   * inside the binding directory, and every new directory is that directory
   * or one of its ancestors.
   */
  lemma AddStaysInTheBinding(p: BindingProcessor, kv: string, d: Disk, t: Tty)
    requires p.WriterFor(kv).Some?
    requires var w := p.WriterFor(kv).value;
             w.path != "" && PlainName(w.key) && ".." !in Components(Split(w.path, '/'))
    ensures var w := p.WriterFor(kv).value;
            var bp := Lookup(d.cwd, w.path);
            var e := p.AddBindingSpec(kv, d, t);
            && ChangesAtMost(d, e.disk, {bp + [TypeFile], bp + [w.key]})
            && (forall x :: x in e.disk.dirs && x !in d.dirs ==> Under(bp, x))
            && e.disk.cwd == d.cwd
  {
    var w := p.WriterFor(kv).value;
    var bp := Lookup(d.cwd, w.path);
    var e := p.AddBindingSpec(kv, d, t);
    AddTouchesOnlyTypeAndKey(p, kv, d, t);
    NameJoin(d, w.path, TypeFile);
    NameJoin(d, w.path, w.key);
    assert {Lookup(d.cwd, w.TypePath()), Lookup(d.cwd, w.KeyPath())} == {bp + [TypeFile], bp + [w.key]};
    MadeAreAncestors(d.cwd, w.path);
    assert forall x :: x in e.disk.dirs && x !in d.dirs ==> x in Made(d.cwd, w.path);
  }

  // ---------------------------------------------------------------------
  // The scenarios the repository's tests exercise

  /** After a successful write the binding directory is ready: `create_dir_all` of it again changes nothing. */
  lemma AfterWriteStillWritable(d: Disk, d': Disk, bpt: string, k: string)
    requires Writable(d, bpt, k)
    requires d'.dirs == CreateDirAllStep(d, bpt).disk.dirs && d'.cwd == d.cwd
    requires forall q :: q in d'.files && q !in d.files ==> q !in d'.dirs
    ensures CreateDirAllStep(d', bpt) == FsStep(Pass, d')
  {
    var o := Origin(d.cwd, bpt);
    var comps := Components(Split(bpt, '/'));
    TrailReached(d'.dirs, o, comps);
    MakeDirsIdle(d', o, comps);
  }

  /**
   * Two different keys added one after the other to the same binding both
   * succeed without a question; both files hold their values and `type` its type.
   */
  lemma {:induction false} DistinctKeysCoexist(
    p: BindingProcessor, k1: string, v1: string, k2: string, v2: string, d: Disk, t: Tty)
    requires p.bindingType.Some?
    requires '=' !in k1 && '=' !in k2 && k1 != k2 && k1 != TypeFile && k2 != TypeFile
    requires !StartsWith(v1, '@') && !StartsWith(v2, '@')
    requires var bpt := p.BindingPath(p.bindingType.value);
             var bp := Lookup(d.cwd, bpt);
             && Writable(d, bpt, k1) && PlainName(k2) && bp + [k2] !in CreateDirAllStep(d, bpt).disk.dirs
             && !d.Exists(bp + [k1]) && !d.Exists(bp + [k2])
    ensures var bp := Lookup(d.cwd, p.BindingPath(p.bindingType.value));
            var e1 := p.AddBindingSpec(k1 + "=" + v1, d, t);
            var e2 := p.AddBindingSpec(k2 + "=" + v2, e1.disk, e1.tty);
            && e1.outcome == Pass && e2.outcome == Pass && e2.tty == t
            && bp + [k1] in e2.disk.files && e2.disk.files[bp + [k1]] == Utf8(v1)
            && bp + [k2] in e2.disk.files && e2.disk.files[bp + [k2]] == Utf8(v2)
            && bp + [TypeFile] in e2.disk.files && e2.disk.files[bp + [TypeFile]] == Utf8(p.bindingType.value)
  {
    var bpt := p.BindingPath(p.bindingType.value);
    var bp := Lookup(d.cwd, bpt);
    assert bp + [k2] != bp + [TypeFile] && bp + [k2] != bp + [k1] by {
      assert (bp + [k2])[|bp|] == k2;
    }
    assert bp + [k1] != bp + [TypeFile] by {
      assert (bp + [k1])[|bp|] == k1;
    }
    NameJoin(d, bpt, k1);
    AddWritesTypeAndValue(p, k1, v1, d, t);
    var e1 := p.AddBindingSpec(k1 + "=" + v1, d, t);
    AfterWriteStillWritable(d, e1.disk, bpt, k1);
    assert Writable(e1.disk, bpt, k2);
    NameJoin(e1.disk, bpt, k2);
    assert !e1.disk.Exists(bp + [k2]);
    AddWritesTypeAndValue(p, k2, v2, e1.disk, e1.tty);
  }

  /**
   * Adding a key that is already there: under `Always` the key is overwritten
   * with the new value; under `Never` the call fails and both the key and
   * `type` keep their contents.
   */
  lemma {:induction false} ReAddSameKey(p: BindingProcessor, k: string, v1: string, v2: string, d: Disk, t: Tty)
    requires p.bindingType.Some? && p.confirmer != Console
    requires '=' !in k && k != TypeFile && !StartsWith(v1, '@') && !StartsWith(v2, '@')
    requires var bpt := p.BindingPath(p.bindingType.value);
             Writable(d, bpt, k) && !d.Exists(Lookup(d.cwd, bpt) + [k])
    ensures var bp := Lookup(d.cwd, p.BindingPath(p.bindingType.value));
            var e1 := p.AddBindingSpec(k + "=" + v1, d, t);
            var e2 := p.AddBindingSpec(k + "=" + v2, e1.disk, e1.tty);
            && e1.outcome == Pass
            && (p.confirmer == Always ==>
                  e2.outcome == Pass && bp + [k] in e2.disk.files && e2.disk.files[bp + [k]] == Utf8(v2))
            && (p.confirmer == Never ==>
                  e2.outcome == Fail(AlreadyExists) && e2.disk == e1.disk
                  && bp + [k] in e2.disk.files && e2.disk.files[bp + [k]] == Utf8(v1))
            && bp + [TypeFile] in e2.disk.files && e2.disk.files[bp + [TypeFile]] == Utf8(p.bindingType.value)
  {
    var bpt := p.BindingPath(p.bindingType.value);
    var bp := Lookup(d.cwd, bpt);
    assert bp + [k] != bp + [TypeFile] by {
      assert (bp + [k])[|bp|] == k;
    }
    NameJoin(d, bpt, k);
    AddWritesTypeAndValue(p, k, v1, d, t);
    var e1 := p.AddBindingSpec(k + "=" + v1, d, t);
    AfterWriteStillWritable(d, e1.disk, bpt, k);
    assert Writable(e1.disk, bpt, k);
    CreateDirAllMakesTheDirectory(e1.disk, bpt);
    NameJoin(e1.disk, bpt, k);
    assert ExistsAt(e1.disk, JoinText(bpt, k));
    if p.confirmer == Always {
      AddWritesTypeAndValue(p, k, v2, e1.disk, e1.tty);
    } else {
      AddDeclinedKeepsDisk(p, k, v2, e1.disk, e1.tty);
    }
  }

  // ---------------------------------------------------------------------
  // add_bindings

  /** Adding `a + b` is adding `a`, then, only if that succeeded, adding `b` on the resulting state. */
  lemma {:induction false} AddBindingsAppend(p: BindingProcessor, a: seq<string>, b: seq<string>, d: Disk, t: Tty)
    ensures p.AddBindingsSpec(a + b, d, t)
            == (var e := p.AddBindingsSpec(a, d, t);
                if e.outcome.Fail? then e else p.AddBindingsSpec(b, e.disk, e.tty))
    decreases |a|
  {
    if a == [] {
      assert a + b == b;
    } else {
      assert (a + b)[0] == a[0];
      assert (a + b)[1..] == a[1..] + b;
      var e := p.AddBindingSpec(a[0], d, t);
      if e.outcome.Pass? {
        AddBindingsAppend(p, a[1..], b, e.disk, e.tty);
      }
    }
  }

  /** The first failing pair ends the batch: its error is the batch's, and later pairs are not attempted. */
  lemma {:induction false} AddBindingsStopsAtFirstError(
    p: BindingProcessor, before: seq<string>, bad: string, after: seq<string>, d: Disk, t: Tty)
    requires p.AddBindingsSpec(before, d, t).outcome.Pass?
    requires var e := p.AddBindingsSpec(before, d, t); p.AddBindingSpec(bad, e.disk, e.tty).outcome.Fail?
    ensures var e := p.AddBindingsSpec(before, d, t);
            p.AddBindingsSpec(before + [bad] + after, d, t) == p.AddBindingSpec(bad, e.disk, e.tty)
  {
    AddBindingsAppend(p, before, [bad] + after, d, t);
    assert before + [bad] + after == before + ([bad] + after);
    var e := p.AddBindingsSpec(before, d, t);
    assert ([bad] + after)[0] == bad;
  }

  // ---------------------------------------------------------------------
  // delete_bindings

  /** Without a directory at the bindings root nothing is asked and nothing removed. */
  lemma DeleteRequiresRootDirectory(p: BindingProcessor, keys: seq<string>, d: Disk, t: Tty)
    requires p.bindingName.Some? && !IsDirAt(d, p.bindingsHome)
    ensures p.DeleteBindingsSpec(keys, d, t) == Effect(Fail(RootNotADirectory), d, t)
  {
  }

  /** The location a key joined to `bp` names, when the kernel reaches it. */
  function KeyAt(d: Disk, bp: string, k: string): set<Path> {
    if Reaches(d, JoinText(bp, k)) then {Lookup(d.cwd, JoinText(bp, k))} else {}
  }

  /** The locations the listed keys name inside the binding directory `bp`, for those the kernel reaches. */
  function KeyLocations(d: Disk, bp: string, keys: seq<string>): set<Path>
    decreases |keys|
  {
    if keys == [] then {} else KeyAt(d, bp, keys[0]) + KeyLocations(d, bp, keys[1..])
  }

  /** Which keys are where depends on the directories and the current directory, not on the files. */
  lemma {:induction false} KeyLocationsIgnoreFiles(d: Disk, d': Disk, bp: string, keys: seq<string>)
    requires d'.dirs == d.dirs && d'.cwd == d.cwd
    ensures KeyLocations(d', bp, keys) == KeyLocations(d, bp, keys)
    decreases |keys|
  {
    if keys != [] {
      KeyLocationsIgnoreFiles(d, d', bp, keys[1..]);
    }
  }

  lemma {:induction false} KeyLocationsOfPrefix(d: Disk, bp: string, keys: seq<string>, m: nat)
    requires m < |keys|
    ensures KeyLocations(d, bp, keys[..m + 1]) == KeyAt(d, bp, keys[0]) + KeyLocations(d, bp, keys[1..][..m])
  {
    assert keys[..m + 1][0] == keys[0] && keys[..m + 1][1..] == keys[1..][..m];
  }

  /**
   * `e` is what deleting `keys` from `d` did when it got through the first
   * `n` keys: exactly what those keys named was removed; `n` is all of them
   * on success; a refusal stopped at key `n`, which is still there.
   */
  predicate RemovedPrefix(d: Disk, bp: string, keys: seq<string>, e: Effect, n: nat) {
    && n <= |keys|
    && e.disk == d.(files := d.files - KeyLocations(d, bp, keys[..n]))
    && (e.outcome.Pass? ==> n == |keys|)
    && (e.outcome == Fail(Declined) ==> n < |keys| && ExistsAt(e.disk, JoinText(bp, keys[n])))
  }

  /**
   * Deleting keys removes the listed keys up to some point and nothing else:
   * all of them on success; on a refusal, the refused key is still there and
   * every key after it is untouched.
   */
  lemma {:induction false} DeleteKeysRemovesAPrefix(p: BindingProcessor, bp: string, keys: seq<string>, d: Disk, t: Tty)
    ensures exists n: nat :: RemovedPrefix(d, bp, keys, p.DeleteKeysSpec(bp, keys, d, t), n)
    decreases |keys|
  {
    var e := p.DeleteKeysSpec(bp, keys, d, t);
    if keys == [] {
      assert RemovedPrefix(d, bp, keys, e, 0);
    } else {
      var kp := JoinText(bp, keys[0]);
      var asked := p.confirmer.Decide(DeletePrompt(kp), t);
      var s := RemoveFileAtStep(d, kp);
      if !ExistsAt(d, kp) {
        DeleteKeysRemovesAPrefix(p, bp, keys[1..], d, t);
        var m: nat :| RemovedPrefix(d, bp, keys[1..], p.DeleteKeysSpec(bp, keys[1..], d, t), m);
        PrefixAfterSkip(p, bp, keys, d, t, m);
      } else if !asked.0 || s.outcome.Fail? {
        assert RemovedPrefix(d, bp, keys, e, 0);
      } else {
        DeleteKeysRemovesAPrefix(p, bp, keys[1..], s.disk, asked.1);
        var m: nat :| RemovedPrefix(s.disk, bp, keys[1..], p.DeleteKeysSpec(bp, keys[1..], s.disk, asked.1), m);
        PrefixAfterRemove(p, bp, keys, d, t, m);
      }
    }
  }

  lemma PrefixAfterSkip(p: BindingProcessor, bp: string, keys: seq<string>, d: Disk, t: Tty, m: nat)
    requires keys != [] && !ExistsAt(d, JoinText(bp, keys[0]))
    requires RemovedPrefix(d, bp, keys[1..], p.DeleteKeysSpec(bp, keys[1..], d, t), m)
    ensures RemovedPrefix(d, bp, keys, p.DeleteKeysSpec(bp, keys, d, t), m + 1)
  {
    KeyLocationsOfPrefix(d, bp, keys, m);
    assert d.files - KeyLocations(d, bp, keys[..m + 1]) == d.files - KeyLocations(d, bp, keys[1..][..m]);
    if m < |keys[1..]| {
      assert keys[m + 1] == keys[1..][m];
    }
  }

  lemma PrefixAfterRemove(p: BindingProcessor, bp: string, keys: seq<string>, d: Disk, t: Tty, m: nat)
    requires keys != [] && ExistsAt(d, JoinText(bp, keys[0]))
    requires var kp := JoinText(bp, keys[0]);
             var asked := p.confirmer.Decide(DeletePrompt(kp), t);
             var s := RemoveFileAtStep(d, kp);
             && asked.0 && s.outcome.Pass?
             && RemovedPrefix(s.disk, bp, keys[1..], p.DeleteKeysSpec(bp, keys[1..], s.disk, asked.1), m)
    ensures RemovedPrefix(d, bp, keys, p.DeleteKeysSpec(bp, keys, d, t), m + 1)
  {
    var s := RemoveFileAtStep(d, JoinText(bp, keys[0]));
    KeyLocationsIgnoreFiles(d, s.disk, bp, keys[1..][..m]);
    KeyLocationsOfPrefix(d, bp, keys, m);
    if m < |keys[1..]| {
      assert keys[m + 1] == keys[1..][m];
    }
  }

  /** Under `Always`, when no listed key names a directory, exactly the listed keys are removed, silently. */
  lemma {:induction false} DeleteUnderAlwaysRemovesExactlyTheKeys(
    p: BindingProcessor, bp: string, keys: seq<string>, d: Disk, t: Tty)
    requires p.confirmer == Always
    requires forall i :: 0 <= i < |keys| ==> !IsDirAt(d, JoinText(bp, keys[i]))
    ensures p.DeleteKeysSpec(bp, keys, d, t) == Effect(Pass, d.(files := d.files - KeyLocations(d, bp, keys)), t)
    decreases |keys|
  {
    if keys != [] {
      var kp := JoinText(bp, keys[0]);
      var d' := if ExistsAt(d, kp) then d.(files := d.files - {Lookup(d.cwd, kp)}) else d;
      assert d'.dirs == d.dirs;
      forall i | 0 <= i < |keys[1..]| ensures !IsDirAt(d', JoinText(bp, keys[1..][i])) {
        assert keys[1..][i] == keys[i + 1];
      }
      DeleteUnderAlwaysRemovesExactlyTheKeys(p, bp, keys[1..], d', t);
      KeyLocationsIgnoreFiles(d, d', bp, keys[1..]);
      assert d'.files - KeyLocations(d, bp, keys[1..]) == d.files - KeyLocations(d, bp, keys);
    }
  }

  /** Under `Never` nothing is removed; the call fails exactly when some listed key exists. */
  lemma {:induction false} DeleteUnderNeverRemovesNothing(p: BindingProcessor, bp: string, keys: seq<string>, d: Disk, t: Tty)
    requires p.confirmer == Never
    ensures var e := p.DeleteKeysSpec(bp, keys, d, t);
            && e.disk == d && e.tty == t
            && (e.outcome.Pass? <==> forall i :: 0 <= i < |keys| ==> !ExistsAt(d, JoinText(bp, keys[i])))
            && (e.outcome.Fail? ==> e.outcome == Fail(Declined))
    decreases |keys|
  {
    if keys != [] {
      DeleteUnderNeverRemovesNothing(p, bp, keys[1..], d, t);
      if !ExistsAt(d, JoinText(bp, keys[0])) {
        assert (forall i :: 0 <= i < |keys| ==> !ExistsAt(d, JoinText(bp, keys[i])))
               <==> (forall i :: 0 <= i < |keys[1..]| ==> !ExistsAt(d, JoinText(bp, keys[1..][i])));
      }
    }
  }

  /** The listed keys that are on disk, as locations. */
  function ExistingKeys(d: Disk, bp: string, keys: seq<string>): set<Path> {
    set q | q in KeyLocations(d, bp, keys) && d.Exists(q)
  }

  /**
   * On the console, a successful deletion asks exactly one question per
   * listed key that exists (a key listed twice is asked about once, since it
   * is gone the second time); what was printed before is left as it was.
   */
  lemma {:induction false} DeleteAsksOncePerExistingKey(p: BindingProcessor, bp: string, keys: seq<string>, d: Disk, t: Tty)
    requires p.confirmer == Console && d.files.Keys !! d.dirs
    ensures var e := p.DeleteKeysSpec(bp, keys, d, t);
            e.outcome.Pass? ==>
              && |e.tty.output| == |t.output| + |ExistingKeys(d, bp, keys)|
              && t.output <= e.tty.output
    decreases |keys|
  {
    var e := p.DeleteKeysSpec(bp, keys, d, t);
    if keys == [] {
      assert ExistingKeys(d, bp, keys) == {};
    } else if e.outcome.Pass? {
      var kp := JoinText(bp, keys[0]);
      DeleteKeysStep(p, bp, keys, d, t);
      if !ExistsAt(d, kp) {
        DeleteAsksOncePerExistingKey(p, bp, keys[1..], d, t);
        ExistingKeysSkip(d, bp, keys);
      } else {
        var t' := p.confirmer.Decide(DeletePrompt(kp), t).1;
        DeleteAsksOncePerExistingKey(p, bp, keys[1..], d.(files := d.files - {Lookup(d.cwd, kp)}), t');
        ExistingKeysRemove(d, bp, keys);
        assert t.output <= t'.output;
      }
    }
  }

  /** The questions a console deletion may ask: one per listed key that exists, naming the key's joined text. */
  function KeyQuestions(d: Disk, bp: string, keys: seq<string>): set<string> {
    set i | 0 <= i < |keys| && ExistsAt(d, JoinText(bp, keys[i])) :: DeletePrompt(JoinText(bp, keys[i])) + " (yes or no)"
  }

  lemma KeyQuestionsShrink(d: Disk, d': Disk, bp: string, keys: seq<string>)
    requires keys != [] && d'.dirs == d.dirs && d'.cwd == d.cwd && d'.files.Keys <= d.files.Keys
    ensures KeyQuestions(d', bp, keys[1..]) <= KeyQuestions(d, bp, keys)
  {
    forall q | q in KeyQuestions(d', bp, keys[1..]) ensures q in KeyQuestions(d, bp, keys) {
      var i :| 0 <= i < |keys[1..]| && ExistsAt(d', JoinText(bp, keys[1..][i]))
               && q == DeletePrompt(JoinText(bp, keys[1..][i])) + " (yes or no)";
      assert keys[1..][i] == keys[i + 1];
    }
  }

  /** Every question a successful console deletion asks names one of the listed keys that existed. */
  lemma {:induction false} DeleteAsksOnlyAboutExistingKeys(p: BindingProcessor, bp: string, keys: seq<string>, d: Disk, t: Tty)
    requires p.confirmer == Console
    ensures var e := p.DeleteKeysSpec(bp, keys, d, t);
            e.outcome.Pass? ==>
              forall j :: |t.output| <= j < |e.tty.output| ==> e.tty.output[j] in KeyQuestions(d, bp, keys)
    decreases |keys|
  {
    var e := p.DeleteKeysSpec(bp, keys, d, t);
    if keys != [] && e.outcome.Pass? {
      var kp := JoinText(bp, keys[0]);
      DeleteKeysStep(p, bp, keys, d, t);
      if !ExistsAt(d, kp) {
        DeleteAsksOnlyAboutExistingKeys(p, bp, keys[1..], d, t);
        KeyQuestionsShrink(d, d, bp, keys);
      } else {
        var t' := p.confirmer.Decide(DeletePrompt(kp), t).1;
        var d' := d.(files := d.files - {Lookup(d.cwd, kp)});
        DeleteAsksOnlyAboutExistingKeys(p, bp, keys[1..], d', t');
        DeleteKeysPrefix(p, bp, keys[1..], d', t');
        KeyQuestionsShrink(d, d', bp, keys);
        assert DeletePrompt(kp) + " (yes or no)" in KeyQuestions(d, bp, keys);
        forall j | |t.output| <= j < |e.tty.output| ensures e.tty.output[j] in KeyQuestions(d, bp, keys) {
          if j == |t.output| {
            assert e.tty.output[j] == t'.output[j];
          }
        }
      }
    }
  }

  /** A deletion only appends to what the terminal shows. */
  lemma {:induction false} DeleteKeysPrefix(p: BindingProcessor, bp: string, keys: seq<string>, d: Disk, t: Tty)
    ensures t.output <= p.DeleteKeysSpec(bp, keys, d, t).tty.output
    decreases |keys|
  {
    if keys != [] {
      var kp := JoinText(bp, keys[0]);
      if !ExistsAt(d, kp) {
        DeleteKeysPrefix(p, bp, keys[1..], d, t);
      } else {
        var asked := p.confirmer.Decide(DeletePrompt(kp), t);
        var s := RemoveFileAtStep(d, kp);
        if asked.0 && s.outcome.Pass? {
          DeleteKeysPrefix(p, bp, keys[1..], s.disk, asked.1);
        }
      }
    }
  }

  /** One step of a deletion that ends in success. */
  lemma DeleteKeysStep(p: BindingProcessor, bp: string, keys: seq<string>, d: Disk, t: Tty)
    requires keys != [] && p.DeleteKeysSpec(bp, keys, d, t).outcome.Pass?
    ensures var kp := JoinText(bp, keys[0]);
            var loc := Lookup(d.cwd, kp);
            && (!ExistsAt(d, kp) ==> p.DeleteKeysSpec(bp, keys, d, t) == p.DeleteKeysSpec(bp, keys[1..], d, t))
            && (ExistsAt(d, kp) ==>
                  && Reaches(d, kp) && loc in d.files
                  && p.confirmer.Decide(DeletePrompt(kp), t).0
                  && p.DeleteKeysSpec(bp, keys, d, t)
                     == p.DeleteKeysSpec(bp, keys[1..], d.(files := d.files - {loc}), p.confirmer.Decide(DeletePrompt(kp), t).1))
  {
  }

  lemma ExistingKeysSkip(d: Disk, bp: string, keys: seq<string>)
    requires keys != [] && !ExistsAt(d, JoinText(bp, keys[0]))
    ensures ExistingKeys(d, bp, keys) == ExistingKeys(d, bp, keys[1..])
  {
  }

  lemma ExistingKeysRemove(d: Disk, bp: string, keys: seq<string>)
    requires keys != [] && ExistsAt(d, JoinText(bp, keys[0]))
    requires Lookup(d.cwd, JoinText(bp, keys[0])) in d.files && d.files.Keys !! d.dirs
    ensures var loc := Lookup(d.cwd, JoinText(bp, keys[0]));
            && loc in ExistingKeys(d, bp, keys)
            && ExistingKeys(d.(files := d.files - {loc}), bp, keys[1..]) == ExistingKeys(d, bp, keys) - {loc}
            && |ExistingKeys(d, bp, keys) - {loc}| == |ExistingKeys(d, bp, keys)| - 1
  {
    var loc := Lookup(d.cwd, JoinText(bp, keys[0]));
    KeyLocationsIgnoreFiles(d, d.(files := d.files - {loc}), bp, keys[1..]);
  }

  /** Keys that are not on disk are skipped without a question. */
  lemma {:induction false} DeleteSkipsAbsentKeys(p: BindingProcessor, bp: string, keys: seq<string>, d: Disk, t: Tty)
    requires forall i :: 0 <= i < |keys| ==> !ExistsAt(d, JoinText(bp, keys[i]))
    ensures p.DeleteKeysSpec(bp, keys, d, t) == Effect(Pass, d, t)
    decreases |keys|
  {
    if keys != [] {
      assert forall i :: 0 <= i < |keys[1..]| ==> keys[1..][i] == keys[i + 1];
      DeleteSkipsAbsentKeys(p, bp, keys[1..], d, t);
    }
  }

  /**
   * A key with a leading `..` leaves the binding: `delete -n foo ../bar`
   * names the entry `bar` beside the binding directory, not inside it.
   */
  lemma ParentKeyLeavesTheBinding(d: Disk, bp: string, x: string)
    requires bp != "" && PlainName(x) && Lookup(d.cwd, bp) != []
    ensures Lookup(d.cwd, JoinText(bp, "../" + x)) == Parent(Lookup(d.cwd, bp)) + [x]
  {
    var k := "../" + x;
    assert k == ".." + ['/'] + x;
    JoinTextResolves(d, bp, k);
    SplitJoin("..", '/', x);
    assert Split("..", '/') == [".."];
    assert Split(x, '/') == [x];
    assert Split(k, '/') == ["..", x];
    var b := Lookup(d.cwd, bp);
    assert Resolve(b, ["..", x]) == Resolve(Parent(b), [x]);
    assert Resolve(Parent(b), [x]) == Resolve(Parent(b) + [x], []);
  }

  /**
   * An empty key list asks once about the whole binding.  Declined, nothing
   * changes.  Approved, everything below the binding directory disappears,
   * and so does the directory itself when its text ends in a name (a single
   * name always does); the call fails when the text ends in `.` or `..`.
   * Files and directories outside the binding and the current directory are
   * left as they were.
   */
  lemma DeleteEmptyListRemovesBinding(p: BindingProcessor, d: Disk, t: Tty)
    requires p.bindingName.Some? && IsDirAt(d, p.bindingsHome)
    ensures var bpt := JoinText(p.bindingsHome, p.bindingName.value);
            var bp := Lookup(d.cwd, bpt);
            var asked := p.confirmer.Decide(DeletePrompt(bpt), t);
            var e := p.DeleteBindingsSpec([], d, t);
            && e.tty == asked.1
            && (!asked.0 ==> e == Effect(Fail(Declined), d, asked.1))
            && (asked.0 && !IsDirAt(d, bpt) ==> e == Effect(Fail(Io(bpt)), d, asked.1))
            && (asked.0 && IsDirAt(d, bpt) ==>
                  && (e.outcome.Pass? <==> EndsInName(bpt))
                  && (e.outcome.Fail? ==> e.outcome == Fail(Io(bpt)))
                  && (forall q :: Under(q, bp) && q != bp ==> !e.disk.Exists(q))
                  && (bp in e.disk.dirs <==> !EndsInName(bpt))
                  && (forall q :: !Under(q, bp) ==>
                        && (q in e.disk.files <==> q in d.files)
                        && (q in d.files ==> e.disk.files[q] == d.files[q])
                        && (q in e.disk.dirs <==> q in d.dirs))
                  && e.disk.cwd == d.cwd)
    ensures PlainName(p.bindingName.value) ==> EndsInName(JoinText(p.bindingsHome, p.bindingName.value))
  {
    if PlainName(p.bindingName.value) {
      JoinNameEndsInName(p.bindingsHome, p.bindingName.value);
    }
  }
}
