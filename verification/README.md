# NinjaCoder for MvvmCross — naming, wiring and code-dependency core in Dafny

This project models two pieces of the NinjaCoder scaffolding engine for MvvmCross
solutions, as pure functions over strings and an abstract project tree.

* **Adding a view model and its views** (`ViewModelViewsService`). Command names
  are derived from a view-model name. `GetCommandName` returns the text before the
  first ordinal "ViewModel" plus "Command". `GetCommandNameInstance` returns the same
  stem, lowered, plus "Command". Without the marker both return "UnknownCommand".
  After the IDE creates the item templates, up to three wiring edits follow, in this
  order: the unit-test rewrite, the "initiated from" update and the "navigate to"
  update. The model records each edit as an `Action` that names the file it
  touches and the values it binds into the navigation snippet.
* **Plugin code dependencies** (`CodeConfigService`). A plugin's assemblies are
  either copied from disk or installed as a NuGet package. The model covers that
  choice and the "NuGet wanted but no package" warning. It also covers the install
  command string, the bootstrap file name and the list of references to add. Its
  centre is `ApplyCodeSnippet`, which inserts a snippet into a method only if the
  method body does not already contain the trimmed snippet. As long as the IDE
  inserts each snippet's code verbatim at the start or the end of the method body,
  re-running a plugin's code dependencies changes nothing and reports nothing.

Files:

* `wrappers.dfy`: `Option`, standing in for references that may be null.
* `text.dfy`: the .NET string operations the source relies on: ordinal
  `IndexOf` and `Contains`, `ToLower`, `Trim` and `String.Replace`.
* `project_tree.dfy`: the solution as the engine sees it. Projects are looked up
  by suffix and hold files by name. Each file's first class holds method bodies by
  name.
* `view_model_views.dfy`: module `ViewModelViews`.
* `code_config.dfy`: module `CodeConfigs`.

Two details of the code:

* The instance command name lowers the whole stem, not only its first character:
  `ToLower()` is applied to the entire prefix (ViewModelViewsService.cs:162), so
  "MyOrdersViewModel" gives "myordersCommand" (`WholeStemLoweredExample`).
* The placeholder in the NuGet install template is "%s"
  (CodeConfigService.cs:119); no other placeholder is substituted.

## Model

| member | source | states |
|---|---|---|
| `Text.IndexOf` | NinjaCoder.MvvmCross/Services/ViewModelViewsService.cs:137 | -1 exactly when the pattern does not occur; otherwise an index where it occurs, with no occurrence before it |
| `Text.Contains` | NinjaCoder.MvvmCross/Services/CodeConfigService.cs:233 | ordinal containment: a contained string is no longer than the text; the empty string and the text itself are always contained |
| `Text.ContainsTransitive` | NinjaCoder.MvvmCross/Services/CodeConfigService.cs:233 | containment is transitive |
| `Text.ContainsAppend` | NinjaCoder.MvvmCross/Services/CodeConfigService.cs:233-235 | text contained in a body stays contained when code is added after the body |
| `Text.ContainsPrepend` | NinjaCoder.MvvmCross/Services/CodeConfigService.cs:233-235 | text contained in a body stays contained when code is added before the body |
| `Text.ToLower` | NinjaCoder.MvvmCross/Services/ViewModelViewsService.cs:162 | every character is lowered, position by position; the length is kept |
| `Text.LowerFirst` | NinjaCoder.MvvmCross/Services/ViewModelViewsService.cs:203 | only the first character is lowered; the rest and the length are kept, and "" stays "" |
| `Text.ReplaceAll` | NinjaCoder.MvvmCross/Services/CodeConfigService.cs:119 | a string shorter than the pattern is returned unchanged |
| `Text.Trim` | NinjaCoder.MvvmCross/Services/CodeConfigService.cs:233 | the result occurs in the input with only white space before and after it, and neither starts nor ends with white space |
| `Text.ReplaceAllAbsent` | NinjaCoder.MvvmCross/Services/CodeConfigService.cs:119 | `Replace` leaves a string that lacks the pattern unchanged |
| `Text.ReplaceAllFirst` | NinjaCoder.MvvmCross/Services/CodeConfigService.cs:119 | `Replace` keeps the text before the first occurrence, substitutes that occurrence and continues after it |
| `Text.ReplaceAllSelf` | NinjaCoder.MvvmCross/Services/CodeConfigService.cs:119 | replacing a pattern by itself is the identity |
| `ViewModelViews.GetCommandName` | NinjaCoder.MvvmCross/Services/ViewModelViewsService.cs:131-145 | "UnknownCommand" when "ViewModel" is absent; otherwise the prefix before its first occurrence followed by "Command" |
| `ViewModelViews.GetCommandNameInstance` | NinjaCoder.MvvmCross/Services/ViewModelViewsService.cs:152-166 | "UnknownCommand" when "ViewModel" is absent; otherwise the whole prefix before its first occurrence, lowered, followed by "Command" |
| `ViewModelViews.CommandNamesAgree` | NinjaCoder.MvvmCross/Services/ViewModelViewsService.cs:135-165 | both names have the same length and both end in "Command"; the instance stem is the command stem lowered; without the marker the two are equal |
| `ViewModelViews.DerivedFromStem` | NinjaCoder.MvvmCross/Services/ViewModelViewsService.cs:135-165 | for stem + "ViewModel" + rest, with no marker starting inside the stem, the names are stem + "Command" and lower(stem) + "Command" |
| `ViewModelViews.OrdersExample` | NinjaCoder.MvvmCross/Services/ViewModelViewsService.cs:156-165 | "OrdersViewModel" gives "OrdersCommand" and "ordersCommand" |
| `ViewModelViews.WholeStemLoweredExample` | NinjaCoder.MvvmCross/Services/ViewModelViewsService.cs:162 | "MyOrdersViewModel" gives "MyOrdersCommand" and "myordersCommand": the whole stem is lowered |
| `ViewModelViews.SentinelAndEmptyStemExamples` | NinjaCoder.MvvmCross/Services/ViewModelViewsService.cs:135-144 | a name without the marker gives the sentinel; a name starting with the marker gives "Command" |
| `ViewModelViews.GetViewModelItem` | NinjaCoder.MvvmCross/Services/ViewModelViewsService.cs:173-176 | the item is found exactly when the key name + ".cs" is in the project, and it is the item stored under that key |
| `ViewModelViews.UpdateUnitTestFile` | NinjaCoder.MvvmCross/Services/ViewModelViewsService.cs:183-209 | no edit unless the test project exists and holds "Test" + name; otherwise the class attribute, the method attribute and the file rewrite of [("FirstViewModel", name), ("firstViewModel", lowerFirst(name))], in that order |
| `ViewModelViews.UnitTestReplacementsCaseConsistent` | NinjaCoder.MvvmCross/Services/ViewModelViewsService.cs:200-206 | the file rewrite has two replacements; the first maps the template name to the view-model name, and the second is the first with both sides' first character lowered |
| `ViewModelViews.UpdateInitViewModel` | NinjaCoder.MvvmCross/Services/ViewModelViewsService.cs:216-237 | at most one edit; it happens exactly when the initiating view model's file exists and edits that file, binding the new view model's name and its command names |
| `ViewModelViews.UpdateNavigateToViewModel` | NinjaCoder.MvvmCross/Services/ViewModelViewsService.cs:244-265 | at most one edit; it happens exactly when the new view model's file exists and edits that file, binding the target's name and its command names |
| `ViewModelViews.AddViewModelAndViews` | NinjaCoder.MvvmCross/Services/ViewModelViewsService.cs:76-115 | the messages are those of template creation; the test edits come first and run only when asked for and the test item exists; then the init edit, only for a non-empty initiating name; then the navigate edit last, only for a non-empty target name |
| `CodeConfigs.GetNugetCommand` | NinjaCoder.MvvmCross/Services/CodeConfigService.cs:88-99 | non-empty exactly when the configuration exists and names a package, and then it is that package |
| `CodeConfigs.UseLocalDiskCopy` | NinjaCoder.MvvmCross/Services/CodeConfigService.cs:135-139 | true exactly when NuGet is not wanted or no package is named |
| `CodeConfigs.NugetRequestedAndNotSupported` | NinjaCoder.MvvmCross/Services/CodeConfigService.cs:146-150 | true exactly when NuGet is wanted and no package is named |
| `CodeConfigs.StrategyRules` | NinjaCoder.MvvmCross/Services/CodeConfigService.cs:135-150 | "not supported" implies a disk copy; without a package, or without NuGet, the copy is from disk; exactly one of install, copy and not-supported holds |
| `CodeConfigs.GetProjectNugetCommand` | NinjaCoder.MvvmCross/Services/CodeConfigService.cs:107-128 | empty without a package; otherwise the template with "%s" replaced by the package, then a space and the project name; the NuGet setting is not an input |
| `CodeConfigs.ProjectNugetCommandIffPackage` | NinjaCoder.MvvmCross/Services/CodeConfigService.cs:113-125 | the project install command is non-empty exactly when the plugin's NuGet command is |
| `CodeConfigs.ProjectNugetCommandShape` | NinjaCoder.MvvmCross/Services/CodeConfigService.cs:113-127 | for a template before + "%s" + after with one placeholder, the command is before + package + after + " " + project |
| `CodeConfigs.ProjectNugetCommandNoPlaceholder` | NinjaCoder.MvvmCross/Services/CodeConfigService.cs:119-122 | a template without "%s" is used verbatim, followed by a space and the project name |
| `CodeConfigs.GetBootstrapFileName` | NinjaCoder.MvvmCross/Services/CodeConfigService.cs:158-176 | a non-empty override is returned verbatim; otherwise the friendly name followed by "PluginBootstrap.cs" |
| `CodeConfigs.BootstrapFileNameFrame` | NinjaCoder.MvvmCross/Services/CodeConfigService.cs:165-171 | the name depends on the configuration only through its override; a missing configuration behaves as one with an empty override |
| `CodeConfigs.ProcessCodeConfig` | NinjaCoder.MvvmCross/Services/CodeConfigService.cs:56-81 | no references without a configuration or when NuGet is used; otherwise one "Lib" reference per entry, in order, from destination dir + "\" + entry to source dir + "\" + entry, carrying both folder settings |
| `CodeConfigs.InsertCode` | NinjaCoder.MvvmCross/Services/CodeConfigService.cs:235 | the new body is the old one with the code spliced in at the clamped placement offset, so it contains the code |
| `CodeConfigs.AddedMessageShape` | NinjaCoder.MvvmCross/Services/CodeConfigService.cs:237-241 | the message is "Code added to project " + project + " class " + class + " method " + method + ".", with each name at its place |
| `CodeConfigs.ApplyCodeSnippet` | NinjaCoder.MvvmCross/Services/CodeConfigService.cs:208-250 | a missing project, class or method, or a body already containing the trimmed code, changes nothing and reports nothing; otherwise only that method body changes, to the old body with the code inserted at the placement (so it contains the code), and one message names the project, class and method |
| `CodeConfigs.ApplyCodeSnippetIdempotent` | NinjaCoder.MvvmCross/Services/CodeConfigService.cs:231-235 | applying the same snippet again, at any placement, changes nothing and reports nothing |
| `CodeConfigs.ApplySnippets` | NinjaCoder.MvvmCross/Services/CodeConfigService.cs:189-199 | at most one message per snippet, and each is the added-code message for some snippet of the list and its project; no change and no message when every snippet is already applied; the projects, files and method names stay the same (bodies are covered by `RunFrame`) |
| `CodeConfigs.ApplySnippetsTurn` | NinjaCoder.MvvmCross/Services/CodeConfigService.cs:192-197 | in list order, the k-th snippet, when it was not applied in the solution the earlier snippets left, appends exactly its own message and its turn's solution is `ApplyCodeSnippet` on that solution; otherwise the turn changes nothing |
| `CodeConfigs.RunMessagesExtend` | NinjaCoder.MvvmCross/Services/CodeConfigService.cs:192-197 | messages accumulate in list order: the messages of a prefix of the run are a prefix of the run's messages |
| `CodeConfigs.ApplySnippetsFirst` | NinjaCoder.MvvmCross/Services/CodeConfigService.cs:192-197 | a first snippet not yet applied reports first, with its own message |
| `CodeConfigs.RunFrame` | NinjaCoder.MvvmCross/Services/CodeConfigService.cs:192-235 | a run leaves every method body that none of its snippets targets exactly as it was |
| `CodeConfigs.ApplyCodeDependencies` | NinjaCoder.MvvmCross/Services/CodeConfigService.cs:184-200 | at most one message per code dependency, each the added-code message for one of them; a first dependency not yet applied reports first; the projects, files and method names stay the same |
| `CodeConfigs.EndInsertKeepsApplied` | NinjaCoder.MvvmCross/Services/CodeConfigService.cs:233-235 | when code is inserted at the start or the end of a body, a snippet that was already applied stays applied |
| `CodeConfigs.RunAppliesAll` | NinjaCoder.MvvmCross/Services/CodeConfigService.cs:192-197 | after a run with insertion at an end of the body, every snippet of the run is applied and every snippet applied before still is |
| `CodeConfigs.ApplyCodeDependenciesIdempotent` | NinjaCoder.MvvmCross/Services/CodeConfigService.cs:184-200 | a second run of a configuration's code dependencies, with insertion at an end of the body, changes nothing and reports nothing |

## Left out

- `ViewModelViews.GetCommandNameInstance`: lowers ASCII letters only. `String.ToLower` applies the current culture's full Unicode case mapping, which is not modelled.
- `CodeConfigs.ApplyCodeDependenciesIdempotent`: proved only for an IDE that inserts code at the start or the end of a method body. An insertion inside an earlier snippet's text could break that snippet's containment, so the claim does not hold for arbitrary placements.
- `CodeConfigs.InsertCode`: inserts the snippet's code verbatim. The IDE's `InsertCode` may reformat or re-indent it; if the trimmed code no longer occurs in the body afterwards, a re-run would insert it again, which the model does not capture.
- Where `InsertCode` places code and how it formats it belong to the IDE. The model takes the offset as a `Placement` parameter.
- Snippet rendering (`AddReplacementVariable`, `ImplementCodeSnippet`) lives in an external library. The model records the ordered (variable, value) bindings passed to it, not the rendered text or its insertion. The `FormatFunctionParameters` setting passed along is not modelled.
- The test rewrite (`UpdateTestClassAttribute`, `UpdateTestMethodAttribute`, `UpdateFile`) belongs to the testing service. The model records which calls are made, on which item, with which replacement list.
- `LowerCaseFirstCharacter` is an external extension method. It is modelled as lowering the first character, with "" left unchanged.
- Template creation (`AddItemTemplateToProjects`, ViewModelViewsService.cs:89) is the IDE's. Its messages are a parameter. The `core` and `testProject` arguments of `AddViewModelAndViews` stand for the projects as they are after template creation, which normally adds the view model's file and its test item.
- `GetProjectServiceBySuffix` is the host's. The solution is a map from suffix to project. Two suffixes that resolve to one project are not modelled.
- `Path.GetDirectoryName` is a function parameter of `ProcessCodeConfig`. `AddReference` calls are returned as a list rather than performed.
- `Settings.NugetInstallPackage` is a parameter (the install template).
- A project file with no class would make `GetFirstClass()` (CodeConfigService.cs:227) fail in the source. The model gives every file a first class.
- `ApplyCodeDependencies` on a null configuration throws in the source. The model's configuration is never null there.
- A null view-model name makes `IndexOf` throw (ViewModelViewsService.cs:137, 158). The model has no null strings: a null string is modelled as "", which the source's `string.IsNullOrEmpty` checks treat alike.
- A null `References` list on a configuration copied from disk makes `ForEach` throw (CodeConfigService.cs:72). The model's list is never null.
- A null `CodeDependencies` list makes the `foreach` throw (CodeConfigService.cs:192). The model's list is never null.
- A null snippet `Code` makes `Trim` throw (CodeConfigService.cs:233). The model's code is never null.
- `Path.GetDirectoryName` can throw on a malformed path (CodeConfigService.cs:69-70). The function parameter standing in for it always returns a value.
- The loading of the navigation snippet file (`GetCodeSnippet`) and `TraceService` logging are I/O and are not modelled.
- The controllers (dialogs, status bar, the `ItemAdded` subscription), the unit-test base template and the language list are host glue or constants and are not part of this model.
