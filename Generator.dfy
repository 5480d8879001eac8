// generateDartModelWithJsonSerializable (src/extension.ts:130-165) and the
// file-stem expression the command uses for the written file's name
// (src/extension.ts:52) and the template uses for its `part` directive
// (src/extension.ts:151).

module Generator {
  import opened Text
  import opened Options
  import opened Regex

  predicate EndsWith(s: string, suffix: string)
  {
    |suffix| <= |s| && s[|s| - |suffix|..] == suffix
  }

  /** `modelName.toLowerCase().replace(/model$/, "_model")`: without the `m`
      flag, `$` matches only at the very end of the text. */
  function FileStem(modelName: string): string
  {
    var l := Lower(modelName);
    if EndsWith(l, "model") then l[..|l| - 5] + "_model" else l
  }

  /** The stem is the lower-cased name with one `_` inserted before a trailing
      "model", and nothing else changed. */
  lemma FileStemSpec(modelName: string)
    ensures var l := Lower(modelName);
      EndsWith(l, "model") ==>
        |FileStem(modelName)| == |l| + 1 && EndsWith(FileStem(modelName), "_model")
        && FileStem(modelName)[..|l| - 5] + FileStem(modelName)[|l| - 4..] == l
    ensures !EndsWith(Lower(modelName), "model") ==> FileStem(modelName) == Lower(modelName)
    ensures forall i :: 0 <= i < |FileStem(modelName)| ==> !('A' <= FileStem(modelName)[i] <= 'Z')
  {
    var l := Lower(modelName);
    var r := FileStem(modelName);
    if EndsWith(l, "model") {
      var p := l[..|l| - 5];
      assert r == p + "_model";
      assert r[|r| - 6..] == "_model";
      assert r[..|l| - 5] == p;
      assert r[|l| - 4..] == "model";
      assert l == p + "model";
    }
    LowerSpec(modelName);
    forall i | 0 <= i < |r| ensures !('A' <= r[i] <= 'Z') {
      if i < |l| - 5 || !EndsWith(l, "model") {
        assert r[i] == l[i];
      }
    }
  }

  lemma FileStemOfModelName()
    ensures FileStem("TagModel") == "tag_model"
  {
    assert Lower("TagModel") == "tagmodel";
    assert "tagmodel"[3..] == "model" && "tagmodel"[..3] == "tag";
  }

  lemma FileStemOfPlainName()
    ensures FileStem("Account") == "account"
  {
    assert Lower("Account") == "account";
    assert "account"[2..] != "model";
  }

  /** A name that already separates "Model" gets a second underscore. */
  lemma FileStemOfSeparatedName()
    ensures FileStem("A_Model") == "a__model"
  {
    assert Lower("A_Model") == "a_model";
    assert "a_model"[2..] == "model" && "a_model"[..2] == "a_";
  }

  // ---------------------------------------------------------------------
  // Constructor parameters

  /** `field.split(' ')[2].replace(';', '')`; none where there is no third
      token, because the source then calls `replace` on `undefined` and throws. */
  function ParamName(field: string): Option<string>
  {
    var tokens := Split(field, ' ');
    if |tokens| < 3 then None else Some(RemoveFirst(tokens[2], ';'))
  }

  /** The parameter names of all fields in order, or none if any is missing. */
  function ParamNames(fields: seq<string>): (r: Option<seq<string>>)
  {
    if fields == [] then Some([])
    else match (ParamName(fields[0]), ParamNames(fields[1..]))
      case (Some(n), Some(ns)) => Some([n] + ns)
      case _ => None
  }

  lemma {:induction false} ParamNamesIndex(fields: seq<string>)
    ensures ParamNames(fields).Some? <==> forall k :: 0 <= k < |fields| ==> ParamName(fields[k]).Some?
    ensures ParamNames(fields).Some? ==>
      |ParamNames(fields).value| == |fields| &&
      forall k :: 0 <= k < |fields| ==> ParamNames(fields).value[k] == ParamName(fields[k]).value
  {
    if fields != [] {
      ParamNamesIndex(fields[1..]);
      forall k | 1 <= k < |fields| ensures fields[k] == fields[1..][k - 1] {
      }
    }
  }

  lemma SplitHasSeparator(s: string, c: char)
    requires c in s
    ensures |Split(s, c)| >= 2
  {
  }

  /** Every rendered field "final T N;" has a third token, whatever T and N are. */
  lemma ParamNameDefined(t: string, n: string)
    ensures ParamName("final " + t + " " + n + ";").Some?
  {
    var rest := t + " " + n + ";";
    assert "final " + t + " " + n + ";" == "final" + [' '] + rest;
    SplitFirst("final", ' ', rest);
    assert rest[|t|] == ' ';
    SplitHasSeparator(rest, ' ');
  }

  /** When the type has no space, the parameter is the field's name. */
  lemma ParamNameOfField(t: string, n: string)
    requires ' ' !in t && ' ' !in n && ';' !in n
    ensures ParamName("final " + t + " " + n + ";") == Some(n)
  {
    var last := n + ";";
    var rest := t + [' '] + last;
    FieldTokens(t, n);
    SplitFirst("final", ' ', rest);
    SplitFirst(t, ' ', last);
    assert ' ' !in last by {
      assert forall i :: 0 <= i < |last| ==> last[i] == ';' || last[i] in n;
    }
    assert Split(last, ' ') == [last];
    var tokens := Split("final " + t + " " + n + ";", ' ');
    assert tokens == ["final"] + ([t] + [last]);
    assert |tokens| == 3 && tokens[2] == last;
    RemoveTrailing(n, ';');
  }

  lemma FieldTokens(t: string, n: string)
    ensures "final " + t + " " + n + ";" == "final" + [' '] + (t + [' '] + (n + ";"))
  {
  }

  /** Removing the first `c` from `n + [c]` gives `n` back when `n` has no `c`. */
  lemma RemoveTrailing(n: string, c: char)
    requires c !in n
    ensures RemoveFirst(n + [c], c) == n
  {
    var s := n + [c];
    var i := IndexOf(s, c);
    assert s[..i] == n && s[i + 1..] == [];
  }

  /** When the type holds a space, the parameter is a piece of the type:
      "final Foo | Bar x;" yields `super.|`. */
  lemma ParamNameOfSpacedType()
    ensures ParamName("final Foo | Bar x;") == Some("|")
  {
    assert "final Foo | Bar x;" == "final" + [' '] + ("Foo" + [' '] + ("|" + [' '] + "Bar x;"));
    SplitFirst("final", ' ', "Foo" + [' '] + ("|" + [' '] + "Bar x;"));
    SplitFirst("Foo", ' ', "|" + [' '] + "Bar x;");
    SplitFirst("|", ' ', "Bar x;");
  }

  /** `required super.<name>,` */
  function ArgLine(name: string): string
  {
    "required super." + name + ","
  }

  function ArgLines(names: seq<string>): (r: seq<string>)
  {
    if names == [] then [] else [ArgLine(names[0])] + ArgLines(names[1..])
  }

  /** The constructor arguments, joined by a newline and four spaces. */
  function ConstructorArgs(names: seq<string>): string
  {
    Join(ArgLines(names), "\n    ")
  }

  // ---------------------------------------------------------------------
  // The import path

  /** `.replace(/\\/g, '/')`: every backslash becomes a slash. */
  function ImportPath(rel: string): (r: string)
  {
    if rel == [] then []
    else [if rel[0] == '\\' then '/' else rel[0]] + ImportPath(rel[1..])
  }

  /** Only backslashes change, each into a slash, so none is left. */
  lemma {:induction false} ImportPathSpec(rel: string)
    ensures |ImportPath(rel)| == |rel| && '\\' !in ImportPath(rel)
    ensures forall i :: 0 <= i < |rel| ==>
      ImportPath(rel)[i] == (if rel[i] == '\\' then '/' else rel[i])
  {
    if rel != [] {
      ImportPathSpec(rel[1..]);
      var r := ImportPath(rel);
      forall i | 1 <= i < |rel| ensures r[i] == ImportPath(rel[1..])[i - 1] && rel[i] == rel[1..][i - 1] {
      }
    }
  }

  /** A path without backslashes is left alone; so replacing twice is replacing once. */
  lemma {:induction false} ImportPathIdentity(rel: string)
    requires '\\' !in rel
    ensures ImportPath(rel) == rel
  {
    if rel != [] {
      ImportPathIdentity(rel[1..]);
    }
  }

  lemma ImportPathIdempotent(rel: string)
    ensures ImportPath(ImportPath(rel)) == ImportPath(rel)
  {
    ImportPathSpec(rel);
    ImportPathIdentity(ImportPath(rel));
  }

  // ---------------------------------------------------------------------
  // The generated file

  /** generateDartModelWithJsonSerializable, given the relative path from the
      target directory to the base-class file; none where a field has no
      third token and the source throws. */
  function GenerateDartModel(modelName: string, baseClassName: string, fields: seq<string>, relative: string)
    : Option<string>
  {
    match ParamNames(fields)
    case None => None
    case Some(names) => Some(Template(modelName, baseClassName, ConstructorArgs(names), ImportPath(relative)))
  }

  // ---------------------------------------------------------------------
  // The template, line by line

  /** Each line followed by a newline. */
  function Unlines(ls: seq<string>): string
  {
    if ls == [] then [] else ls[0] + "\n" + Unlines(ls[1..])
  }

  /** The template literal's lines before `${constructorArgs}`: it opens with
      a newline, so its first line is empty. */
  function HeaderLines(modelName: string, baseClassName: string, imp: string): seq<string>
  {
    ["", "import 'package:json_annotation/json_annotation.dart';", "import '" + imp + "';", "",
     "part '" + FileStem(modelName) + ".g.dart';", "", "@JsonSerializable()",
     "class " + modelName + " extends " + baseClassName + " {", "  " + modelName + "({"]
  }

  /** The template literal's lines after `${constructorArgs}`; it closes with a newline. */
  function FooterLines(modelName: string): seq<string>
  {
    ["  });", "", "  factory " + modelName + ".fromMap(Map<String, dynamic> json) =>",
     "      _$" + modelName + "FromJson(json);", "",
     "  Map<String, dynamic> toMap() => _$" + modelName + "ToJson(this);", "}"]
  }

  /** The template literal, with `args` the joined constructor arguments and
      `imp` the import path. */
  function Template(modelName: string, baseClassName: string, args: string, imp: string): string
  {
    Unlines(HeaderLines(modelName, baseClassName, imp) + ["    " + args] + FooterLines(modelName))
  }

  lemma UnlinesCons(l: string, ls: seq<string>)
    ensures Unlines([l] + ls) == l + "\n" + Unlines(ls)
  {
    assert ([l] + ls)[1..] == ls;
  }

  lemma {:induction false} UnlinesAppend(a: seq<string>, b: seq<string>)
    ensures Unlines(a + b) == Unlines(a) + Unlines(b)
  {
    if a != [] {
      assert (a + b)[1..] == a[1..] + b;
      UnlinesAppend(a[1..], b);
    } else {
      assert a + b == b;
    }
  }

  /** Splitting the text at newlines gives the lines back, and an empty last piece. */
  lemma {:induction false} SplitUnlines(ls: seq<string>)
    requires forall k :: 0 <= k < |ls| ==> '\n' !in ls[k]
    ensures Split(Unlines(ls), '\n') == ls + [""]
  {
    if ls != [] {
      SplitUnlines(ls[1..]);
      SplitFirst(ls[0], '\n', Unlines(ls[1..]));
      assert [ls[0]] + (ls[1..] + [""]) == ls + [""];
    }
  }

  /** One line per constructor argument, indented by four spaces. */
  function ArgRows(names: seq<string>): (r: seq<string>)
    ensures |r| == |names|
  {
    if names == [] then [] else ["    " + ArgLine(names[0])] + ArgRows(names[1..])
  }

  /** The joined arguments on the template's indented line are one indented
      line per argument. */
  lemma {:induction false} ArgsText(names: seq<string>)
    requires |names| >= 1
    ensures Unlines(["    " + ConstructorArgs(names)]) == Unlines(ArgRows(names))
  {
    var first := "    " + ArgLine(names[0]);
    UnlinesCons("    " + ConstructorArgs(names), []);
    if |names| == 1 {
      assert names[1..] == [];
      assert ArgLines(names) == [ArgLine(names[0])];
      assert ConstructorArgs(names) == ArgLine(names[0]);
      assert ArgRows(names) == [first] + [];
      UnlinesCons(first, []);
    } else {
      var rest := names[1..];
      ArgsText(rest);
      UnlinesCons("    " + ConstructorArgs(rest), []);
      assert ArgLines(names) == [ArgLine(names[0])] + ArgLines(rest);
      assert ConstructorArgs(names) == ArgLine(names[0]) + "\n    " + ConstructorArgs(rest);
      assert ArgRows(names) == [first] + ArgRows(rest);
      UnlinesCons(first, ArgRows(rest));
    }
  }

  /** The lines of a generated file: the header, `required super.N,` for each
      field in order, and the footer. */
  function ModelLines(modelName: string, baseClassName: string, names: seq<string>, imp: string): seq<string>
  {
    HeaderLines(modelName, baseClassName, imp) + ArgRows(names) + FooterLines(modelName)
  }

  lemma TemplateText(modelName: string, baseClassName: string, names: seq<string>, imp: string)
    requires |names| >= 1
    ensures Template(modelName, baseClassName, ConstructorArgs(names), imp)
      == Unlines(ModelLines(modelName, baseClassName, names, imp))
  {
    var h := HeaderLines(modelName, baseClassName, imp);
    var f := FooterLines(modelName);
    var a := ["    " + ConstructorArgs(names)];
    UnlinesAppend(h + a, f);
    UnlinesAppend(h, a);
    ArgsText(names);
    UnlinesAppend(h + ArgRows(names), f);
    UnlinesAppend(h, ArgRows(names));
  }

  /** The generator yields a file exactly when every field has a third token;
      for a non-empty field list the file is the header, one argument line per
      field naming that field's parameter, and the footer. */
  lemma GenerateDartModelLines(modelName: string, baseClassName: string, fields: seq<string>, relative: string)
    ensures GenerateDartModel(modelName, baseClassName, fields, relative).Some?
      <==> forall k :: 0 <= k < |fields| ==> ParamName(fields[k]).Some?
    ensures GenerateDartModel(modelName, baseClassName, fields, relative).Some? && |fields| >= 1 ==>
      var names := ParamNames(fields).value;
      |names| == |fields| && (forall k :: 0 <= k < |fields| ==> names[k] == ParamName(fields[k]).value)
      && GenerateDartModel(modelName, baseClassName, fields, relative).value
        == Unlines(ModelLines(modelName, baseClassName, names, ImportPath(relative)))
  {
    ParamNamesIndex(fields);
    if ParamNames(fields).Some? && |fields| >= 1 {
      TemplateText(modelName, baseClassName, ParamNames(fields).value, ImportPath(relative));
    }
  }

  lemma {:induction false} ArgRowsIndex(names: seq<string>, j: nat)
    requires j < |names|
    ensures ArgRows(names)[j] == "    " + ArgLine(names[j])
  {
    if j > 0 {
      ArgRowsIndex(names[1..], j - 1);
    }
  }

  /** Where each part of the generated file stands: the import of the base
      class on line 2, the `part` directive on line 4, the class header on
      line 7, the constructor on line 8, the argument lines from line 9 on,
      then the `fromMap` factory delegating to `_$<M>FromJson` and `toMap`
      delegating to `_$<M>ToJson`. */
  lemma ModelLinesShape(modelName: string, baseClassName: string, names: seq<string>, imp: string)
    ensures var ls, n := ModelLines(modelName, baseClassName, names, imp), |names|;
      |ls| == 16 + n
      && ls[2] == "import '" + imp + "';"
      && ls[4] == "part '" + FileStem(modelName) + ".g.dart';"
      && ls[7] == "class " + modelName + " extends " + baseClassName + " {"
      && ls[8] == "  " + modelName + "({"
      && (forall j :: 0 <= j < n ==> ls[9 + j] == "    " + ArgLine(names[j]))
      && ls[9 + n] == "  });"
      && ls[11 + n] == "  factory " + modelName + ".fromMap(Map<String, dynamic> json) =>"
      && ls[12 + n] == "      _$" + modelName + "FromJson(json);"
      && ls[14 + n] == "  Map<String, dynamic> toMap() => _$" + modelName + "ToJson(this);"
  {
    var h := HeaderLines(modelName, baseClassName, imp);
    var a := ArgRows(names);
    var f := FooterLines(modelName);
    var ls := h + a + f;
    forall j | 0 <= j < |names| ensures ls[9 + j] == "    " + ArgLine(names[j]) {
      ArgRowsIndex(names, j);
      assert ls[9 + j] == a[j];
    }
    assert ls[9 + |names|] == f[0];
    assert ls[11 + |names|] == f[2];
    assert ls[12 + |names|] == f[3];
    assert ls[14 + |names|] == f[5];
  }
}
