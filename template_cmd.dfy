/** The `aoc template` commands of src/aoc/cli_commands/template.py: user
    templates kept as files `.templates/<name>.py.template`, saved from and
    loaded into the notepad.

    The templates directory is a map from template name to content and the
    notepad is an optional text (`None` when the file does not exist); both
    are fields of a `TemplateStore`.  The `--force` flags and the answers to
    the confirmation prompts are parameters. */
module TemplateCommand {
  import opened Wrappers
  import opened PyStr
  import StringOrder

  /** The file a template is kept in. */
  function FileName(name: string): string {
    name + ".py.template"
  }

  const TemplateSuffix: string := ".py.template"

  lemma FileNameInjective(a: string, b: string)
    ensures FileName(a) == FileName(b) ==> a == b
  {
    if FileName(a) == FileName(b) {
      assert a == FileName(a)[..|a|];
    }
  }

  /** The name a template file is listed under: the file name without its
      `.py.template` suffix. */
  function ListedName(file: string): string
    requires |file| >= |TemplateSuffix|
  {
    file[..|file| - |TemplateSuffix|]
  }

  /** Every template is listed under its own name. */
  lemma ListedNameOfFile(name: string)
    ensures ListedName(FileName(name)) == name
  {
    assert FileName(name)[..|name|] == name;
  }

  /** The name `template list` prints: the stem of the file, `name.py`, with
      every ".py" in it removed (`template_file.stem.replace('.py', '')`). */
  function ListedNameAsWritten(name: string): string {
    Replace(name + ".py", ".py", "")
  }

  /** A name that does not contain ".py" is printed as it is. */
  lemma ListedNameAsWrittenPlain(name: string)
    requires !Contains(name, ".py")
    ensures ListedNameAsWritten(name) == name
  {
    var s := name + ".py";
    var n := |name|;
    ContainsIff(name, ".py");
    forall j | 0 <= j < n ensures !OccursAt(s, ".py", j) {
      if j + 3 <= n {
        assert s[j..j + 3] == name[j..j + 3];
        assert !OccursAt(name, ".py", j);
      } else if j == n - 1 {
        assert s[j..j + 3][1] == s[n] == '.';
      } else {
        assert s[j..j + 3][2] == s[n] == '.';
      }
    }
    ReplaceConcat(name, ".py", "", "");
    assert name + ".py" + "" == s;
    ReplaceEmpty(".py", "");
  }

  /** A template named `a.pyb`, where neither `a` nor `b` holds a dot, is
      listed as `ab`: every such name is printed as another one. */
  lemma ListedNameAsWrittenMerges(a: string, b: string)
    requires forall j :: 0 <= j < |a| ==> a[j] != '.'
    requires forall j :: 0 <= j < |b| ==> b[j] != '.'
    ensures ListedNameAsWritten(a + ".py" + b) == a + b
  {
    var s := a + ".py" + b + ".py";
    var t := a + ".py" + (b + ".py");
    assert s == t;
    forall j | 0 <= j < |a| ensures !OccursAt(a + ".py", ".py", j) {
      NotOccursAt(a + ".py", ".py", j);
    }
    ReplaceConcat(a, ".py", b + ".py", "");
    DropPy(b);
    assert Replace(t, ".py", "") == a + "" + b;
  }

  /** A text without dots, followed by ".py", loses only the ".py". */
  lemma DropPy(b: string)
    requires forall j :: 0 <= j < |b| ==> b[j] != '.'
    ensures Replace(b + ".py", ".py", "") == b
  {
    forall j | 0 <= j < |b| ensures !OccursAt(b + ".py", ".py", j) {
      NotOccursAt(b + ".py", ".py", j);
    }
    ReplaceConcat(b, ".py", "", "");
    assert b + ".py" + "" == b + ".py";
    ReplaceEmpty(".py", "");
    assert b + "" + [] == b;
  }

  /** "my.python" is listed as "mython". */
  lemma ListedNameAsWrittenExample()
    ensures ListedNameAsWritten("my" + ".py" + "thon") == "my" + "thon"
    ensures "my" + ".py" + "thon" != "my" + "thon"
  {
    ListedNameAsWrittenMerges("my", "thon");
  }

  /** ASCII lower case; see `Protected`. */
  function LowerChar(c: char): char {
    if 'A' <= c <= 'Z' then ((c as int) + 32) as char else c
  }

  function Lower(s: string): (r: string)
    ensures |r| == |s| && forall i :: 0 <= i < |s| ==> r[i] == LowerChar(s[i])
  {
    seq(|s|, i requires 0 <= i < |s| => LowerChar(s[i]))
  }

  /** `name.lower() == "default"`: the name of the protected template, in
      any mixture of cases. */
  predicate Protected(name: string) {
    Lower(name) == "default"
  }

  lemma ProtectedNames()
    ensures Protected("default") && Protected("DEFAULT") && Protected("Default")
    ensures !Protected("defaults") && !Protected("my-template")
  {
    assert Lower("default") == "default";
    assert Lower("DEFAULT") == "default";
    assert Lower("Default") == "default";
    assert |Lower("defaults")| == 8;
    assert Lower("my-template")[0] == 'm';
  }

  /** Loading over the notepad asks first when the notepad exists, holds
      more than whitespace and `--force` is not given. */
  predicate NeedsConfirmation(notepad: Option<string>, force: bool) {
    notepad.Some? && Strip(notepad.value) != [] && !force
  }

  datatype SaveOutcome = Saved | AlreadyExists | NotepadUnreadable | WriteFailed
  datatype LoadOutcome = Loaded | NotFound | LoadCancelled | LoadFailed
  datatype DeleteOutcome = Deleted | IsProtected | Missing | DeleteCancelled | DeleteFailed
  datatype ListOutcome = NoTemplates | Names(names: seq<string>)

  class TemplateStore {
    var templates: map<string, string>
    var notepad: Option<string>

    constructor (templates: map<string, string>, notepad: Option<string>)
      ensures this.templates == templates && this.notepad == notepad
    {
      this.templates := templates;
      this.notepad := notepad;
    }

    /** `template save NAME [--force]`: an existing template is only
        overwritten with `--force`; the notepad is copied as it is.
        `writable` says whether `write_text` succeeds; it fails, for
        instance, when the templates directory is missing, and the
        exception is caught and logged. */
    method Save(name: string, force: bool, writable: bool) returns (r: SaveOutcome)
      modifies this
      ensures notepad == old(notepad)
      ensures name in old(templates) && !force ==> r == AlreadyExists && templates == old(templates)
      ensures !(name in old(templates) && !force) && notepad.None? ==>
        r == NotepadUnreadable && templates == old(templates)
      ensures !(name in old(templates) && !force) && notepad.Some? && !writable ==>
        r == WriteFailed && templates == old(templates)
      ensures !(name in old(templates) && !force) && notepad.Some? && writable ==>
        r == Saved && templates == old(templates)[name := notepad.value]
    {
      if name in templates && !force {
        return AlreadyExists;
      }
      if notepad.None? {
        return NotepadUnreadable;
      }
      if !writable {
        return WriteFailed;
      }
      templates := templates[name := notepad.value];
      r := Saved;
    }

    /** `template load NAME [--force]`: `confirm` is the answer to the
        prompt, asked only when loading would overwrite a notepad with
        something in it.  `writable` says whether reading the template and
        writing the notepad succeed; a failure is caught and logged, and
        the notepad keeps what it held. */
    method Load(name: string, force: bool, confirm: bool, writable: bool) returns (r: LoadOutcome)
      modifies this
      ensures templates == old(templates)
      ensures name !in templates ==> r == NotFound && notepad == old(notepad)
      ensures name in templates && NeedsConfirmation(old(notepad), force) && !confirm ==>
        r == LoadCancelled && notepad == old(notepad)
      ensures name in templates && (!NeedsConfirmation(old(notepad), force) || confirm) && !writable ==>
        r == LoadFailed && notepad == old(notepad)
      ensures name in templates && (!NeedsConfirmation(old(notepad), force) || confirm) && writable ==>
        r == Loaded && notepad == Some(templates[name])
    {
      if name !in templates {
        return NotFound;
      }
      if NeedsConfirmation(notepad, force) && !confirm {
        return LoadCancelled;
      }
      if !writable {
        return LoadFailed;
      }
      notepad := Some(templates[name]);
      r := Loaded;
    }

    /** `template delete NAME`: the protected name is refused before the
        template is even looked for; `confirm` is the answer to the prompt.
        `removable` says whether `unlink` succeeds; a failure is caught and
        logged, and the template stays. */
    method Delete(name: string, confirm: bool, removable: bool) returns (r: DeleteOutcome)
      modifies this
      ensures notepad == old(notepad)
      ensures Protected(name) ==> r == IsProtected
      ensures !Protected(name) && name !in old(templates) ==> r == Missing
      ensures !Protected(name) && name in old(templates) && !confirm ==> r == DeleteCancelled
      ensures !Protected(name) && name in old(templates) && confirm && !removable ==> r == DeleteFailed
      ensures r == Deleted <==> !Protected(name) && name in old(templates) && confirm && removable
      ensures r == Deleted ==> templates == old(templates) - {name}
      ensures r != Deleted ==> templates == old(templates)
      ensures forall n :: n in old(templates) && Protected(n) ==> n in templates && templates[n] == old(templates)[n]
    {
      if Lower(name) == "default" {
        return IsProtected;
      }
      if name !in templates {
        return Missing;
      }
      if !confirm {
        return DeleteCancelled;
      }
      if !removable {
        return DeleteFailed;
      }
      templates := templates - {name};
      r := Deleted;
    }

    /** `template list`: the message when there are no templates, otherwise
        the names in the order of their file names. */
    method List() returns (r: ListOutcome)
      ensures r == NoTemplates <==> templates == map[]
      ensures r.Names? ==> |r.names| == |templates|
      ensures r.Names? ==> forall n :: n in r.names <==> n in templates
      ensures r.Names? ==> forall i, j :: 0 <= i < j < |r.names| ==>
        StringOrder.Less(FileName(r.names[i]), FileName(r.names[j]))
    {
      if templates == map[] {
        return NoTemplates;
      }
      var files := set n | n in templates :: FileName(n);
      var sorted := StringOrder.Sorted(files);
      var names: seq<string> := [];
      for i := 0 to |sorted|
        invariant |names| == i
        invariant forall k :: 0 <= k < i ==> FileName(names[k]) == sorted[k]
      {
        assert sorted[i] in sorted;
        var n :| n in templates && FileName(n) == sorted[i];
        ListedNameOfFile(n);
        names := names + [ListedName(sorted[i])];
      }
      forall n ensures n in names <==> n in templates {
        if n in names {
          var k :| 0 <= k < |names| && names[k] == n;
          assert sorted[k] in sorted;
          var m :| m in templates && FileName(m) == sorted[k];
          FileNameInjective(n, m);
        }
        if n in templates {
          assert FileName(n) in files;
          var k :| 0 <= k < |sorted| && sorted[k] == FileName(n);
          FileNameInjective(names[k], n);
        }
      }
      FileNamesCount(templates.Keys);
      r := Names(names);
    }
  }

  /** Different names have different files, so there are as many files as
      templates. */
  lemma {:induction false} FileNamesCount(names: set<string>)
    ensures |set n | n in names :: FileName(n)| == |names|
    decreases |names|
  {
    if names != {} {
      var x :| x in names;
      var rest := names - {x};
      FileNamesCount(rest);
      var files := set n | n in names :: FileName(n);
      var restFiles := set n | n in rest :: FileName(n);
      assert files == restFiles + {FileName(x)};
      forall n | n in rest ensures FileName(n) != FileName(x) {
        FileNameInjective(n, x);
      }
      assert FileName(x) !in restFiles;
    }
  }

  /** The life of a template as in tests/test_cli_template.py: the notepad
      saved under a new name, listed, the notepad edited, the template
      loaded back over it (answering yes) and finally deleted (yes again). */
  method Lifecycle(store: TemplateStore, name: string, content: string, edited: string)
    returns (saved: SaveOutcome, listing: ListOutcome, loaded: LoadOutcome, deleted: DeleteOutcome)
    requires name !in store.templates && !Protected(name)
    requires store.notepad == Some(content)
    modifies store
    ensures saved == Saved && loaded == Loaded && deleted == Deleted
    ensures listing.Names? && name in listing.names
    ensures store.notepad == Some(content)
    ensures store.templates == old(store.templates)
  {
    saved := store.Save(name, false, true);
    assert store.templates == old(store.templates)[name := content];
    listing := store.List();
    store.notepad := Some(edited);
    loaded := store.Load(name, false, true, true);
    deleted := store.Delete(name, true, true);
    assert store.templates == old(store.templates)[name := content] - {name};
  }
}
