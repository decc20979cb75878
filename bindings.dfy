/**
 * The binding store: `BindingProcessor` adds `key=value` pairs to a binding
 * directory (the root joined with the name or type) and deletes keys or whole bindings,
 * consulting its confirmer before overwriting or removing anything that
 * exists; `BindingWriter` performs one write (directory, then `type`, then
 * the key).
 *
 * Every operation has a pure specification over the `Disk` and `Tty`
 * values (the functions ending in `Spec`) and an imperative version over
 * the `FileSystem` and `Terminal` objects, proved to have exactly that effect.
 */
module Bindings {
  import opened Base
  import opened Fs
  import opened Confirm

  datatype BindingError =
    | TypeRequired                // "binding type is required when adding a binding"
    | MalformedPair(pair: string) // "could not parse key/value -> <pair>"
    | AlreadyExists               // the overwrite was not confirmed
    | Declined                    // a deletion was not confirmed
    | RootNotADirectory           // "bindings home must be a directory"
    | SourceNotFound(src: string) // the `@` source did not canonicalize
    | Io(path: string)            // a filesystem call failed on the text `path`

  /** The result of an operation together with the disk and terminal after it. */
  datatype Effect = Effect(outcome: Outcome<BindingError>, disk: Disk, tty: Tty)

  /** The result of a write and the disk after it (a write never prompts). */
  datatype Written = Written(outcome: Outcome<BindingError>, disk: Disk)

  /** The overwrite question, spelled as the program prints it. */
  const OverwritePrompt := "The binding alread exists, do you wish to continue?"

  /** The deletion question names the path text as the program built it. */
  function DeletePrompt(p: string): string {
    "Are you sure you want to delete " + p + "?"
  }

  const TypeFile := "type"

  /** A filesystem call on the text `p`, its failure reported as an `Io` error naming `p`. */
  function FromFs(s: FsStep, p: string): (w: Written)
    ensures w.outcome.Pass? <==> s.outcome.Pass?
    ensures w.outcome.Fail? ==> w.outcome == Fail(Io(p))
    ensures w.disk == s.disk
  {
    Written(IoOutcome(s.outcome, p), s.disk)
  }

  function IoOutcome(o: Outcome<Path>, p: string): Outcome<BindingError> {
    if o.Pass? then Pass else Fail(Io(p))
  }

  // =====================================================================
  // BindingWriter

  datatype BindingWriter = BindingWriter(path: string, bType: string, key: string, value: string) {

    /** `binding_key_path`: the key joined to the binding directory. */
    function KeyPath(): string {
      JoinText(path, key)
    }

    function TypePath(): string {
      JoinText(path, TypeFile)
    }

    /** The file a `@`-value names: the value with every leading `@` removed. */
    function SourceText(): string {
      TrimStartMatches(value, '@')
    }

    function WriteTypeSpec(d: Disk): Written {
      FromFs(CreateFileAtStep(d, TypePath(), Utf8(bType)), TypePath())
    }

    function WriteKeyAsValueSpec(d: Disk): Written {
      FromFs(CreateFileAtStep(d, KeyPath(), Utf8(value)), KeyPath())
    }

    function WriteKeyAsFileSpec(d: Disk): Written {
      match Canonicalize(d, SourceText())
      case None => Written(Fail(SourceNotFound(SourceText())), d)
      case Some(src) => FromFs(CopyToStep(d, src, KeyPath()), KeyPath())
    }

    /** Create the directory, write `type`, then write the key; directories made before a failure stay. */
    function WriteSpec(d: Disk): Written {
      var s1 := CreateDirAllStep(d, path);
      if s1.outcome.Fail? then Written(Fail(Io(path)), s1.disk)
      else
        var s2 := WriteTypeSpec(s1.disk);
        if s2.outcome.Fail? then s2
        else if StartsWith(value, '@') then WriteKeyAsFileSpec(s2.disk)
        else WriteKeyAsValueSpec(s2.disk)
    }

    method WriteType(fs: FileSystem) returns (r: Outcome<BindingError>)
      modifies fs
      ensures Written(r, fs.Snapshot()) == WriteTypeSpec(old(fs.Snapshot()))
    {
      var o := fs.CreateFileAt(TypePath(), Utf8(bType));
      r := IoOutcome(o, TypePath());
    }

    method WriteKeyAsValue(fs: FileSystem) returns (r: Outcome<BindingError>)
      modifies fs
      ensures Written(r, fs.Snapshot()) == WriteKeyAsValueSpec(old(fs.Snapshot()))
    {
      var o := fs.CreateFileAt(KeyPath(), Utf8(value));
      r := IoOutcome(o, KeyPath());
    }

    method WriteKeyAsFile(fs: FileSystem) returns (r: Outcome<BindingError>)
      modifies fs
      ensures Written(r, fs.Snapshot()) == WriteKeyAsFileSpec(old(fs.Snapshot()))
    {
      var src := SourceText();
      var resolved := Canonicalize(fs.Snapshot(), src);
      if resolved.None? {
        r := Fail(SourceNotFound(src));
        return;
      }
      var o := fs.CopyTo(resolved.value, KeyPath());
      r := IoOutcome(o, KeyPath());
    }

    method Write(fs: FileSystem) returns (r: Outcome<BindingError>)
      modifies fs
      ensures Written(r, fs.Snapshot()) == WriteSpec(old(fs.Snapshot()))
    {
      var o := fs.CreateDirAll(path);
      if o.Fail? {
        r := Fail(Io(path));
        return;
      }
      r := WriteType(fs);
      if r.Fail? {
        return;
      }
      if StartsWith(value, '@') {
        r := WriteKeyAsFile(fs);
      } else {
        r := WriteKeyAsValue(fs);
      }
    }
  }

  // =====================================================================
  // BindingProcessor

  datatype BindingProcessor = BindingProcessor(
    bindingsHome: string,
    bindingType: Option<string>,
    bindingName: Option<string>,
    confirmer: Confirmer)
  {
    /** The binding directory for a pair of type `t`: named by the name if given, else by the type. */
    function BindingPath(t: string): string {
      JoinText(bindingsHome, if bindingName.Some? then bindingName.value else t)
    }

    /** The writer for a pair, when the processor has a type and the pair has an `=`. */
    function WriterFor(kv: string): Option<BindingWriter> {
      if bindingType.None? then None
      else
        match SplitOnce(kv, '=')
        case None => None
        case Some((k, v)) => Some(BindingWriter(BindingPath(bindingType.value), bindingType.value, k, v))
    }

    function AddBindingSpec(kv: string, d: Disk, t: Tty): Effect {
      if bindingType.None? then Effect(Fail(TypeRequired), d, t)
      else if '=' !in kv then Effect(Fail(MalformedPair(kv)), d, t)
      else
        var w := WriterFor(kv).value;
        var asked := if ExistsAt(d, w.KeyPath()) then confirmer.Decide(OverwritePrompt, t) else (true, t);
        if !asked.0 then Effect(Fail(AlreadyExists), d, asked.1)
        else
          var written := w.WriteSpec(d);
          Effect(written.outcome, written.disk, asked.1)
    }

    /** The pairs in order, stopping at the first failure. */
    function AddBindingsSpec(kvs: seq<string>, d: Disk, t: Tty): Effect
      decreases |kvs|
    {
      if kvs == [] then Effect(Pass, d, t)
      else
        var e := AddBindingSpec(kvs[0], d, t);
        if e.outcome.Fail? then e else AddBindingsSpec(kvs[1..], e.disk, e.tty)
    }

    /** Remove each listed key that exists, each removal confirmed; stop at the first refusal or failure. */
    function DeleteKeysSpec(bp: string, keys: seq<string>, d: Disk, t: Tty): Effect
      decreases |keys|
    {
      if keys == [] then Effect(Pass, d, t)
      else
        var kp := JoinText(bp, keys[0]);
        if !ExistsAt(d, kp) then DeleteKeysSpec(bp, keys[1..], d, t)
        else
          var asked := confirmer.Decide(DeletePrompt(kp), t);
          if !asked.0 then Effect(Fail(Declined), d, asked.1)
          else
            var s := RemoveFileAtStep(d, kp);
            if s.outcome.Fail? then Effect(Fail(Io(kp)), d, asked.1)
            else DeleteKeysSpec(bp, keys[1..], s.disk, asked.1)
    }

    /** Remove the whole binding directory, once confirmed; what was removed before a failure stays removed. */
    function DeleteDirSpec(bp: string, d: Disk, t: Tty): Effect {
      var asked := confirmer.Decide(DeletePrompt(bp), t);
      if !asked.0 then Effect(Fail(Declined), d, asked.1)
      else
        var s := RemoveDirAllAtStep(d, bp);
        if s.outcome.Fail? then Effect(Fail(Io(bp)), s.disk, asked.1)
        else Effect(Pass, s.disk, asked.1)
    }

    function DeleteBindingsSpec(keys: seq<string>, d: Disk, t: Tty): Effect
      requires bindingName.Some?
    {
      if !IsDirAt(d, bindingsHome) then Effect(Fail(RootNotADirectory), d, t)
      else
        var bp := JoinText(bindingsHome, bindingName.value);
        if keys == [] then DeleteDirSpec(bp, d, t) else DeleteKeysSpec(bp, keys, d, t)
    }

    // -------------------------------------------------------------------
    // The imperative operations

    method AddBinding(kv: string, fs: FileSystem, term: Terminal) returns (r: Outcome<BindingError>)
      modifies fs, term
      ensures Effect(r, fs.Snapshot(), term.Snapshot())
              == AddBindingSpec(kv, old(fs.Snapshot()), old(term.Snapshot()))
    {
      if bindingType.None? {
        return Fail(TypeRequired);
      }
      var split := SplitOnce(kv, '=');
      if split.None? {
        return Fail(MalformedPair(kv));
      }
      var (key, value) := split.value;
      var writer := BindingWriter(BindingPath(bindingType.value), bindingType.value, key, value);
      if ExistsAt(fs.Snapshot(), writer.KeyPath()) {
        var yes := confirmer.Confirm(OverwritePrompt, term);
        if !yes {
          return Fail(AlreadyExists);
        }
      }
      r := writer.Write(fs);
    }

    method AddBindings(kvs: seq<string>, fs: FileSystem, term: Terminal) returns (r: Outcome<BindingError>)
      modifies fs, term
      ensures Effect(r, fs.Snapshot(), term.Snapshot())
              == AddBindingsSpec(kvs, old(fs.Snapshot()), old(term.Snapshot()))
    {
      var i := 0;
      while i < |kvs|
        invariant 0 <= i <= |kvs|
        invariant AddBindingsSpec(kvs[i..], fs.Snapshot(), term.Snapshot())
                  == AddBindingsSpec(kvs, old(fs.Snapshot()), old(term.Snapshot()))
      {
        assert kvs[i..][1..] == kvs[i + 1..];
        r := AddBinding(kvs[i], fs, term);
        if r.Fail? {
          return;
        }
        i := i + 1;
      }
      r := Pass;
    }

    method DeleteBindings(keys: seq<string>, fs: FileSystem, term: Terminal) returns (r: Outcome<BindingError>)
      requires bindingName.Some?
      modifies fs, term
      ensures Effect(r, fs.Snapshot(), term.Snapshot())
              == DeleteBindingsSpec(keys, old(fs.Snapshot()), old(term.Snapshot()))
    {
      if !IsDirAt(fs.Snapshot(), bindingsHome) {
        return Fail(RootNotADirectory);
      }
      var bp := JoinText(bindingsHome, bindingName.value);
      var i := 0;
      while i < |keys|
        invariant 0 <= i <= |keys|
        invariant keys == [] ==> fs.Snapshot() == old(fs.Snapshot()) && term.Snapshot() == old(term.Snapshot())
        invariant keys != [] ==>
          DeleteKeysSpec(bp, keys[i..], fs.Snapshot(), term.Snapshot())
          == DeleteBindingsSpec(keys, old(fs.Snapshot()), old(term.Snapshot()))
      {
        assert keys[i..][1..] == keys[i + 1..];
        var kp := JoinText(bp, keys[i]);
        if ExistsAt(fs.Snapshot(), kp) {
          var yes := confirmer.Confirm(DeletePrompt(kp), term);
          if !yes {
            return Fail(Declined);
          }
          var o := fs.RemoveFileAt(kp);
          if o.Fail? {
            return Fail(Io(kp));
          }
        }
        i := i + 1;
      }
      if keys == [] {
        var yes := confirmer.Confirm(DeletePrompt(bp), term);
        if !yes {
          return Fail(Declined);
        }
        var o := fs.RemoveDirAllAt(bp);
        if o.Fail? {
          return Fail(Io(bp));
        }
      }
      r := Pass;
    }
  }
}
