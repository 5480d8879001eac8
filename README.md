# ne-gen-dartmodel, modelled in Dafny

This project models the text pipeline of the `ne-gen-dartmodel` VS Code extension
(`src/extension.ts`). The extension takes a model name `M` and a base-class name `B`, then:

- finds the first Dart file in the workspace that contains `class B`;
- reads the `final` fields of that file;
- writes `<stem>.dart`, a `@JsonSerializable()` subclass of `B`.

The stem is `M` lower-cased, with a trailing `model` turned into `_model`. The subclass's
constructor forwards every field to `super`.

The model keeps the code's behaviour, including its quirks.

- **Locator.** The base-class search is a plain substring test, so `class UserEntity`
  also matches inside `class UserEntityBase` or inside a comment.
- **Normaliser.** The generic-argument callback receives the whole `<...>` span and wraps
  it in another pair of brackets. So `Map<String, dynamic>` becomes `Map<<String,dynamic>>`.
- **Field scanner.** `\s` includes line terminators, so a declaration spread over several
  lines is still found.
- **Parameter name.** The name is the third space-separated token of the rendered field.
  When the field's type contains a space, that token is a piece of the type.

Modules, one per file:

| module | what it models |
|---|---|
| `Options` | The optional value used for "not found", "no match" and "the source throws here". |
| `Text` | JavaScript's `\s` and `\w` classes, and `includes`, `trim`, `split` with a one-character separator, `join`, `replace` of a one-character string, and `toLowerCase` on ASCII letters. |
| `Regex` | A backtracking matcher for the patterns the extension uses: literal text and greedy repetitions of a character class. It is proved sound and complete against a declarative "the text splits into pieces that fit the atoms" reading. It also models the `exec` loop of a global regular expression: matches are found left to right, resuming at `lastIndex`. |
| `Generics` | The replace with `/<\s*([\w<, >]+)\s*>/g`, whose callback applies `/\s*,\s*/g` → `,` and wraps the span. |
| `Fields` | `extractFieldsFromBaseClass` after the file read: the scan loop with `/final\s+([\w<>,\s\|]+)\s+(\w+);/g`, as an imperative method proved against `Extracted`. |
| `Locator` | `findBaseClassFile` over a given list of (path, content) pairs, as an imperative method with an early return. |
| `Generator` | The file-stem rule, the constructor-parameter derivation, the import-path rewrite and the template of `generateDartModelWithJsonSerializable`. |
| `Command` | The command handler's sequence of checks, each of which ends the command before anything is written, and what it writes. |

## Model

| member | source | states |
|---|---|---|
| Text.TrimIsInfix | src/extension.ts:109-110 | `trim()` returns a substring of its input. Only whitespace lies before and after it, and the result neither starts nor ends with whitespace. |
| Text.TrimPadded | src/extension.ts:109-110 | Whitespace added around a text does not change its `trim()`. |
| Text.TrimStartSpec | src/extension.ts:109 | Trimming the start removes exactly a whitespace prefix and stops at the first other character. |
| Text.TrimEndSpec | src/extension.ts:109 | Trimming the end removes exactly a whitespace suffix and stops at the last other character. |
| Text.Split | src/extension.ts:139 | `split(c)` returns at least one piece, and no piece contains `c`. |
| Text.SplitFirst | src/extension.ts:139 | Splitting `a + c + b`, where `a` has no `c`, gives `a` followed by the pieces of `b`. |
| Text.SplitJoin | src/extension.ts:139 | Splitting a join at a separator that no element contains gives the elements back. |
| Text.LowerSpec | src/extension.ts:52 | `toLowerCase` works character by character and leaves no upper-case ASCII letter. |
| Regex.Run | src/extension.ts:101 | A greedy repetition takes the longest run of its class. Every character of the run is in the class, and the next character is not. |
| Regex.RunMaximal | src/extension.ts:101 | No run of the class starting at the same position is longer than `Run`. |
| Regex.RunExact | src/extension.ts:101 | A run that stops at a character outside the class is the longest run. |
| Regex.MatchSound | src/extension.ts:101 | A backtracking match splits the text into consecutive pieces, each fitting its atom. |
| Regex.MatchComplete | src/extension.ts:101 | If the text at a position can be split to fit the pattern at all, the backtracking match succeeds there. |
| Regex.LastRepGreedy | src/extension.ts:106 | A pattern that is one repetition matches exactly the longest run, if that run is long enough. |
| Regex.MatchEndsGreedy | src/extension.ts:106 | A match of a pattern ending in a repetition ends where that repetition's longest run ends. |
| Regex.Search | src/extension.ts:108 | `exec` from `lastIndex` finds the leftmost position where the pattern matches, and nothing matches before it. |
| Regex.Exec | src/extension.ts:108 | Every position the `exec` loop reports is one where the pattern matches. |
| Regex.ExecOrdered | src/extension.ts:108 | Reported matches come in textual order and do not overlap. |
| Regex.ExecCover | src/extension.ts:108 | Every position where the pattern matches is reported, or lies inside a reported match. |
| Regex.ExecEmptyIff | src/extension.ts:108 | The loop reports nothing exactly when the pattern matches nowhere. |
| Generics.CommaMatchAt | src/extension.ts:106 | `/\s*,\s*/` matches at a position exactly when the whitespace run there is followed by a comma. The match then also takes all the whitespace after the comma. |
| Generics.CommaEndIsMatch | src/extension.ts:106 | The closed-form end of a comma match is where the backtracking matcher ends it. |
| Generics.CommaEndStops | src/extension.ts:106 | A comma match ends at the end of the text or before a non-whitespace character. |
| Generics.CollapseHead | src/extension.ts:106 | The collapsed text starts with a comma exactly where a comma match starts. Otherwise it starts with the original character. |
| Generics.CollapseNoSpaceByComma | src/extension.ts:106 | After `replace(/\s*,\s*/g, ',')`, no whitespace stands next to a comma. |
| Generics.CollapseNonSpace | src/extension.ts:106 | The comma replacement keeps every non-whitespace character, in order. |
| Generics.CollapseLast | src/extension.ts:106 | A last character that is neither whitespace nor a comma survives the comma replacement. |
| Generics.RewriteSpec | src/extension.ts:105-107 | The callback's result for a span `<...>` starts with `<<` and ends with `>>`, has no whitespace next to a comma, and keeps the span's non-whitespace characters in order, plus one extra `<` at the front and one extra `>` at the back. |
| Generics.RewriteBrackets | src/extension.ts:106 | The span keeps its outer `<` and `>` through the comma replacement, so the wrapped result starts with `<<` and ends with `>>`. |
| Generics.RewriteNoSpaceByComma | src/extension.ts:106 | No whitespace stands next to a comma in the callback's result. |
| Generics.RewriteNonSpace | src/extension.ts:106 | The callback's result has the span's non-whitespace characters, plus one extra `<` in front and one extra `>` behind. |
| Generics.GenericShape | src/extension.ts:105 | A match of `/<\s*([\w<, >]+)\s*>/` starts with `<`, ends with `>`, and is at least three characters long. |
| Generics.GenericEnd | src/extension.ts:105 | The end of a generic-argument match exists exactly when the backtracking matcher succeeds, and the matched span is bracketed. |
| Generics.Next | src/extension.ts:105 | The global replace always moves forward. |
| Generics.PiecesStep | src/extension.ts:105 | Each step of the global replace consumes exactly the text up to where the scan resumes. |
| Generics.PiecesCover | src/extension.ts:105 | The kept characters and rewritten spans cover the input exactly, in order. |
| Generics.PiecesBracketed | src/extension.ts:105-106 | Every span handed to the callback starts with `<` and ends with `>`. |
| Fields.WordStart | src/extension.ts:101 | The start of the longest run of `\w` characters that ends at a position. |
| Fields.WordStartExact | src/extension.ts:101 | A word run preceded by a non-word character starts where `WordStart` says. |
| Fields.FieldFits | src/extension.ts:101 | Every way of fitting the field pattern at a position gives six groups: `final`, whitespace, type characters, whitespace, a word, and `;`. |
| Fields.FieldFitsClosedForm | src/extension.ts:101 | Such a decomposition pins the match down. Its `;` is the first character after `final` that is not a type character, and its name is the whole word run before that `;`. |
| Fields.GroupsFit | src/extension.ts:101 | Six groups of that shape always fit the pattern. |
| Fields.FieldMatchIff | src/extension.ts:101 | The field pattern matches at a position exactly when the closed form `FieldAt` holds there. |
| Fields.FieldMatchSound | src/extension.ts:101 | A match implies the closed form. |
| Fields.FieldMatchComplete | src/extension.ts:101 | The closed form implies a match. |
| Fields.EntryClosedForm | src/extension.ts:108-115 | The pushed entry depends only on where the match starts, not on how backtracking splits the whitespace. `lastIndex` moves to just after the `;`. |
| Fields.EntryShape | src/extension.ts:109-115 | Every entry is `"final " + T + " " + N + ";"`. `N` is a non-empty run of `\w`. `T` is trimmed and drawn only from `\w`, `<`, `>`, `,`, `\|` and whitespace. |
| Fields.TypeTextShape | src/extension.ts:109 | The trimmed type contains only field-type characters and has no whitespace at either end. |
| Fields.FieldAdvances | src/extension.ts:108 | Every field match is non-empty, so the `exec` loop terminates. |
| Fields.ExtractFieldsFromBaseClass | src/extension.ts:103-117 | The `while`/`exec` loop over the normalised text pushes exactly `Extracted(Normalise(content))`: one entry per match, in match order. |
| Fields.ExtractedShape | src/extension.ts:108-115 | Every extracted field is `"final " + T + " " + N + ";"`, with T and N read off its match. `N` is a non-empty run of `\w`. `T` is trimmed and drawn only from `\w`, `<`, `>`, `,`, `\|` and whitespace. |
| Fields.ExtractedEntries | src/extension.ts:108-115 | The k-th extracted field renders the k-th match, which satisfies the closed form. |
| Fields.ExtractedOrdered | src/extension.ts:108 | Extracted fields come in textual order. Each later match starts after the `;` of an earlier one. |
| Fields.ExtractedCover | src/extension.ts:108 | No declaration is skipped. Every position where the closed form holds starts a reported match or lies inside one. |
| Fields.ExtractedEmptyIff | src/extension.ts:108-123 | The result is empty exactly when no declaration matches. This gives an empty list, not an error. |
| Locator.FirstDeclaring | src/extension.ts:86-91 | The index found is within the file list. |
| Locator.FirstDeclaringNone | src/extension.ts:86-92 | Nothing is found exactly when no file contains `class B`. |
| Locator.FirstDeclaringFirst | src/extension.ts:86-90 | If file k contains `class B` and no earlier file does, file k is the one found. |
| Locator.FindBaseClassFile | src/extension.ts:84-93 | The `for` loop with early return gives the path of the first file, in list order, whose content contains `class B`. It gives none if no file does. |
| Locator.PrefixNameFound | src/extension.ts:88 | There is no word-boundary check: `class UserEntityBase` satisfies a search for `UserEntity`. |
| Locator.CommentMentionFound | src/extension.ts:88 | A mention inside a comment satisfies the search. |
| Generator.FileStemSpec | src/extension.ts:52 | The stem is the lower-cased name. If that ends in `model`, exactly one `_` is inserted before that `model`; otherwise nothing changes. No upper-case ASCII letter remains. |
| Generator.FileStemOfModelName | src/extension.ts:52 | `TagModel` gives `tag_model`. |
| Generator.FileStemOfPlainName | src/extension.ts:52 | `Account` gives `account`. |
| Generator.FileStemOfSeparatedName | src/extension.ts:52 | `A_Model` gives `a__model`. |
| Generator.ParamNamesIndex | src/extension.ts:137-141 | The `map` succeeds exactly when every field has a third token. Then it gives one name per field, in order, each the field's own parameter. |
| Generator.ParamNameDefined | src/extension.ts:139 | A field rendered as `"final " + T + " " + N + ";"` always has a third token, so `split(' ')[2]` is defined. |
| Generator.ParamNameOfField | src/extension.ts:139 | When neither `T` nor `N` contains a space and `N` contains no `;`, the parameter is `N`. |
| Generator.ParamNameOfSpacedType | src/extension.ts:139 | With a space in the type, the parameter is a piece of the type: `final Foo \| Bar x;` gives `\|`. |
| Generator.RemoveTrailing | src/extension.ts:139 | `replace(';', '')` on `N + ";"`, where `N` has no `;`, gives `N`. |
| Generator.ImportPathSpec | src/extension.ts:145 | The rewritten import path has the same length, each backslash becomes `/`, every other character stays, and no backslash is left. |
| Generator.ImportPathIdentity | src/extension.ts:145 | A path without backslashes is unchanged. |
| Generator.ImportPathIdempotent | src/extension.ts:145 | Rewriting twice is the same as rewriting once. |
| Generator.SplitUnlines | src/extension.ts:147-164 | Splitting newline-free lines, each followed by a newline, at `\n` gives the lines back, then an empty piece. |
| Generator.UnlinesAppend | src/extension.ts:147-164 | The text of two blocks of lines is the text of the first followed by the text of the second. |
| Generator.ArgRows | src/extension.ts:137-142 | There is one argument line per parameter name. |
| Generator.ArgRowsIndex | src/extension.ts:137-142 | Argument line j is `"    required super." + names[j] + ","`. |
| Generator.ArgsText | src/extension.ts:142-156 | The arguments joined by `"\n    "` and placed on the template's indented line give exactly one indented `required super.<name>,` line per field, in order. |
| Generator.TemplateText | src/extension.ts:137-164 | For a non-empty field list, the template text is the header lines, one argument line per field, and the footer lines, each followed by a newline. |
| Generator.ModelLinesShape | src/extension.ts:147-164 | Where each line stands: the import on line 2, `part '<stem>.g.dart';` on line 4, `class M extends B {` on line 7, the constructor `M({` on line 8, then the argument lines. After them come `});`, a `fromMap` factory delegating to `_$MFromJson`, and `toMap` delegating to `_$MToJson`. |
| Generator.GenerateDartModelLines | src/extension.ts:130-165 | The generator produces text exactly when every field has a third token. For a non-empty field list, the text is those lines, with the parameter of field k on argument line k. |
| Command.ExtractedParamNames | src/extension.ts:139 | Every field the scanner reports has a third token, so deriving the parameters never throws on the scanner's output. |
| Command.ExtractedParamName | src/extension.ts:139 | The parameter of an extracted field is that field's name whenever its type contains no space. |
| Command.ProduceWritesIff | src/extension.ts:34-60 | Once the base class is found, the command never ends in the caught failure. It writes exactly when fields were found and a folder was chosen. |
| Command.CommandWritesIff | src/extension.ts:13-60 | The command writes exactly when both names are non-empty, a file declares the base class under a non-empty path, that file yields fields, and a folder was chosen. It never ends in the caught failure. Every other outcome stops before writing. |
| Command.ProduceWritten | src/extension.ts:51-60 | The written path is `join(folder, stem + ".dart")`. The content is the template's lines, with one argument line per extracted field in order and the import built from `relative(folder, basePath)`. Combined with `ModelLinesShape`, the file name and the `part` directive use the same stem. |
| Command.CommandWritten | src/extension.ts:27-35 | A successful run uses the first file, in list order, that declares the base class. |

## Left out

- Text.Lower: models `toLowerCase` on ASCII letters only. Characters outside ASCII are left unchanged.
- The dialogs, the command registration, opening and showing the document, and the messages shown are left out. They are user-interface calls. The model keeps only the order of the checks and which outcome each failed check gives (src/extension.ts:6-81).
- `vscode.workspace.findFiles` and both file reads are I/O. The locator takes the workspace's files as a list of (path, content) pairs in the order the search returns them.
- The command reads the base-class file a second time (src/extension.ts:98). The model uses the content the locator saw, so it assumes the file does not change in between.
- `path.relative` and `path.join` are parameters of `Command.GenerateCommand`, because their platform-specific rules are library code. Only the backslash-to-slash rewrite is modelled.
- `mkdir` and `writeFile` are left out. Their own failures are not modelled. The only failure the catch at src/extension.ts:75-77 receives in the model is a field without a third token, and `Command.CommandWritesIff` shows that this cannot happen for the scanner's output.
- `exec('dart run build_runner build')` and its callback are an external, fire-and-forget process.
- `console.log` at src/extension.ts:116 and 120 is output only.
- Asynchrony is left out. The `await`s run one after another, so the model is a sequence of checks.
- Fields.Entry: gives the empty text at a position where the pattern does not match. The loop only asks for it where the pattern matches, so this never reaches the output.
- Generator.ModelLinesShape: states the lines as a sequence before joining. The model does not prove that the template's literal parts contain no newline, so there is no statement that splitting the whole generated text at `\n` gives exactly these lines. `Generator.SplitUnlines` proves that inverse for any newline-free lines.
