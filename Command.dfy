// The generateDartModel command (src/extension.ts:6-81) with its dialogs,
// file system and build step taken out: the answers to the two input boxes
// and the folder dialog, the workspace's Dart files and the two path
// functions are parameters, and the outcome says which check stopped the
// command or what it would write where.

module Command {
  import opened Text
  import opened Options
  import opened Regex
  import opened Generics
  import opened Fields
  import opened Locator
  import opened Generator

  datatype Outcome =
    | ModelNameRequired
    | BaseClassRequired
    | BaseClassNotFound
    | NoFields
    | NoTargetDir
    | Failed
    | Written(path: string, content: string)

  /** JavaScript's `!x` on a string that may be undefined. */
  predicate Missing(x: Option<string>)
  {
    x.None? || x.value == []
  }

  /** The command, check by check in the source's order; every check that
      fails ends it before anything is written. `relative` and `join` stand
      for `path.relative` and `path.join`. The base class's fields are read
      from the content the locator saw. */
  function GenerateCommand(
    modelName: Option<string>, baseClassName: Option<string>,
    files: seq<(string, string)>, targets: Option<seq<string>>,
    relative: (string, string) -> string, join: (string, string) -> string): Outcome
  {
    if Missing(modelName) then ModelNameRequired
    else if Missing(baseClassName) then BaseClassRequired
    else
      var m, b := modelName.value, baseClassName.value;
      match FirstDeclaring(files, b)
      case None => BaseClassNotFound
      case Some(k) =>
        if files[k].0 == [] then BaseClassNotFound
        else Produce(m, b, files[k].0, files[k].1, targets, relative, join)
  }

  /** The command once the base class has been found at `basePath` with
      content `content`. */
  function Produce(
    modelName: string, baseClassName: string, basePath: string, content: string,
    targets: Option<seq<string>>,
    relative: (string, string) -> string, join: (string, string) -> string): Outcome
  {
    var fields := Extracted(Normalise(content));
    if |fields| == 0 then NoFields
    else if targets.None? || |targets.value| == 0 then NoTargetDir
    else
      var dir := targets.value[0];
      var filePath := join(dir, FileStem(modelName) + ".dart");
      match GenerateDartModel(modelName, baseClassName, fields, relative(dir, basePath))
      case None => Failed
      case Some(text) => Written(filePath, text)
  }

  /** Every field the scanner reports has a third token, so the parameter
      derivation never throws on them. */
  lemma ExtractedParamNames(s: string)
    ensures forall k :: 0 <= k < |Extracted(s)| ==> ParamName(Extracted(s)[k]).Some?
  {
    forall k | 0 <= k < |Extracted(s)| ensures ParamName(Extracted(s)[k]).Some? {
      ExtractedEntries(s, k);
      var i := Exec(FieldPat, s, 0)[k];
      ParamNameDefined(TypeText(s, i), NameText(s, i));
    }
  }

  /** The parameter of an extracted field is its name whenever its type holds
      no space; a type with a space gives a piece of the type instead. */
  lemma ExtractedParamName(s: string, k: nat)
    requires k < |Extracted(s)|
    ensures Advances(FieldPat, s) && k < |Exec(FieldPat, s, 0)|
    ensures ' ' !in TypeText(s, Exec(FieldPat, s, 0)[k]) ==>
      ParamName(Extracted(s)[k]) == Some(NameText(s, Exec(FieldPat, s, 0)[k]))
  {
    ExtractedEntries(s, k);
    var i := Exec(FieldPat, s, 0)[k];
    if ' ' !in TypeText(s, i) {
      EntryShape(s, i);
      var n := NameText(s, i);
      assert ' ' !in n && ';' !in n by {
        forall j | 0 <= j < |n| ensures n[j] != ' ' && n[j] != ';' {
          assert IsWord(n[j]);
        }
      }
      ParamNameOfField(TypeText(s, i), n);
    }
  }

  /** Once the base class is found, the command never ends in the generic
      failure: it writes exactly when the file yields fields and a folder was
      chosen. */
  lemma ProduceWritesIff(
    modelName: string, baseClassName: string, basePath: string, content: string,
    targets: Option<seq<string>>,
    relative: (string, string) -> string, join: (string, string) -> string)
    ensures Produce(modelName, baseClassName, basePath, content, targets, relative, join) != Failed
    ensures Produce(modelName, baseClassName, basePath, content, targets, relative, join).Written? <==>
      |Extracted(Normalise(content))| > 0 && targets.Some? && |targets.value| > 0
  {
    var fields := Extracted(Normalise(content));
    ExtractedParamNames(Normalise(content));
    ParamNamesIndex(fields);
  }

  /** The command never ends in the generic failure: it writes a file exactly
      when both names are given, some file declares the base class (under a
      non-empty path), that file yields fields, and a folder was chosen. */
  lemma CommandWritesIff(
    modelName: Option<string>, baseClassName: Option<string>,
    files: seq<(string, string)>, targets: Option<seq<string>>,
    relative: (string, string) -> string, join: (string, string) -> string)
    ensures GenerateCommand(modelName, baseClassName, files, targets, relative, join) != Failed
    ensures GenerateCommand(modelName, baseClassName, files, targets, relative, join).Written? <==>
      !Missing(modelName) && !Missing(baseClassName) && FirstDeclaring(files, baseClassName.value).Some?
      && files[FirstDeclaring(files, baseClassName.value).value].0 != []
      && |Extracted(Normalise(files[FirstDeclaring(files, baseClassName.value).value].1))| > 0
      && targets.Some? && |targets.value| > 0
  {
    if !Missing(modelName) && !Missing(baseClassName) && FirstDeclaring(files, baseClassName.value).Some? {
      var k := FirstDeclaring(files, baseClassName.value).value;
      ProduceWritesIff(modelName.value, baseClassName.value, files[k].0, files[k].1, targets, relative, join);
    }
  }

  /** What a successful run writes: the file `<stem>.dart` in the first chosen
      folder, holding the header, one argument line per extracted field in
      order, and the footer, with the import being the relative path with
      slashes. */
  lemma ProduceWritten(
    modelName: string, baseClassName: string, basePath: string, content: string,
    targets: Option<seq<string>>,
    relative: (string, string) -> string, join: (string, string) -> string)
    requires Produce(modelName, baseClassName, basePath, content, targets, relative, join).Written?
    ensures targets.Some? && |targets.value| > 0
    ensures var fields := Extracted(Normalise(content));
      var dir := targets.value[0];
      var r := Produce(modelName, baseClassName, basePath, content, targets, relative, join);
      ParamNames(fields).Some? && |ParamNames(fields).value| == |fields| >= 1
      && (forall j :: 0 <= j < |fields| ==> ParamName(fields[j]) == Some(ParamNames(fields).value[j]))
      && r.path == join(dir, FileStem(modelName) + ".dart")
      && r.content == Unlines(ModelLines(modelName, baseClassName, ParamNames(fields).value, ImportPath(relative(dir, basePath))))
  {
    var fields := Extracted(Normalise(content));
    GenerateDartModelLines(modelName, baseClassName, fields, relative(targets.value[0], basePath));
  }

  /** A successful command is Produce on the first declaring file. */
  lemma CommandWritten(
    modelName: Option<string>, baseClassName: Option<string>,
    files: seq<(string, string)>, targets: Option<seq<string>>,
    relative: (string, string) -> string, join: (string, string) -> string)
    requires GenerateCommand(modelName, baseClassName, files, targets, relative, join).Written?
    ensures modelName.Some? && baseClassName.Some? && FirstDeclaring(files, baseClassName.value).Some?
    ensures var k := FirstDeclaring(files, baseClassName.value).value;
      GenerateCommand(modelName, baseClassName, files, targets, relative, join)
        == Produce(modelName.value, baseClassName.value, files[k].0, files[k].1, targets, relative, join)
  {
  }
}
