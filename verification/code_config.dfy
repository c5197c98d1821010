/**
 * Plugin dependencies: whether a plugin's assemblies are copied from disk or
 * installed as a NuGet package, the commands and file names that follow, and the
 * idempotent insertion of the plugin's code snippets into existing methods.
 */
module CodeConfigs {
  import opened Wrappers
  import opened Text
  import opened ProjectTree

  /** Code to add to method `methodName` of class `className` in the project named by `project`. */
  datatype CodeSnippet = CodeSnippet(project: string, className: string, methodName: string, code: string)

  /**
   * A plugin's code configuration. A null package name or override is the empty
   * string here, which every `string.IsNullOrEmpty` check treats alike.
   */
  datatype CodeConfig = CodeConfig(
    nugetPackage: string,
    references: seq<string>,
    bootstrapFileNameOverride: string,
    codeDependencies: seq<CodeSnippet>)

  /** The user settings the service consults. */
  datatype Settings = Settings(
    useNugetForPlugins: bool,
    includeLibFolderInProjects: bool,
    copyAssembliesToLibFolder: bool)

  /** One `AddReference` call: folder, destination path, source path and the two copy flags. */
  datatype Reference = Reference(
    folder: string,
    destination: string,
    source: string,
    includeLibFolder: bool,
    copyAssembly: bool)

  /** A configuration is present and names a NuGet package. */
  predicate HasPackage(config: Option<CodeConfig>) {
    config.Some? && config.value.nugetPackage != ""
  }

  /** `GetNugetCommand`: the package name when there is one, otherwise the empty string. */
  function GetNugetCommand(config: Option<CodeConfig>): (r: string)
    ensures r != "" <==> HasPackage(config)
    ensures HasPackage(config) ==> r == config.value.nugetPackage
  {
    if config.Some? && config.value.nugetPackage != "" then config.value.nugetPackage else ""
  }

  /** `UseLocalDiskCopy`: copy from disk unless NuGet is wanted and a package is named. */
  function UseLocalDiskCopy(settings: Settings, config: Option<CodeConfig>): (r: bool)
    ensures r <==> !(settings.useNugetForPlugins && HasPackage(config))
  {
    !settings.useNugetForPlugins || GetNugetCommand(config) == ""
  }

  /** `NugetRequestedAndNotSupported`: NuGet is wanted but the plugin names no package. */
  function NugetRequestedAndNotSupported(settings: Settings, config: Option<CodeConfig>): (r: bool)
    ensures r <==> settings.useNugetForPlugins && !HasPackage(config)
  {
    settings.useNugetForPlugins && GetNugetCommand(config) == ""
  }

  /**
   * The strategy rules: exactly one of "install the package", "copy from disk as
   * asked" and "NuGet asked for but unavailable" holds, and the last still copies
   * from disk.
   */
  lemma StrategyRules(settings: Settings, config: Option<CodeConfig>)
    ensures NugetRequestedAndNotSupported(settings, config) ==> UseLocalDiskCopy(settings, config)
    ensures !HasPackage(config) ==> UseLocalDiskCopy(settings, config)
    ensures !settings.useNugetForPlugins ==>
      UseLocalDiskCopy(settings, config) && !NugetRequestedAndNotSupported(settings, config)
    ensures !UseLocalDiskCopy(settings, config) <==> settings.useNugetForPlugins && HasPackage(config)
    ensures var install := !UseLocalDiskCopy(settings, config);
      var unsupported := NugetRequestedAndNotSupported(settings, config);
      var copy := UseLocalDiskCopy(settings, config) && !unsupported;
      (install || copy || unsupported) && !(install && copy) && !(install && unsupported) && !(copy && unsupported)
  {
  }

  /** The placeholder of the NuGet install template. */
  const PackagePlaceholder: string := "%s"

  /**
   * `GetProjectNugetCommand`: nothing without a package; otherwise the install
   * template with every "%s" replaced by the package name, then a space and the
   * project name. The NuGet setting is not consulted.
   */
  function GetProjectNugetCommand(config: Option<CodeConfig>, installTemplate: string, projectName: string): (r: string)
    ensures !HasPackage(config) ==> r == ""
    ensures HasPackage(config) ==>
      r == ReplaceAll(installTemplate, PackagePlaceholder, config.value.nugetPackage) + " " + projectName
  {
    var nugetCommand := GetNugetCommand(config);
    if nugetCommand != "" then
      ReplaceAll(installTemplate, PackagePlaceholder, nugetCommand) + " " + projectName
    else ""
  }

  /**
   * A template with one placeholder, `before + "%s" + after`, yields the package
   * name in its place, the surrounding text verbatim and the project name last.
   */
  lemma {:induction false} ProjectNugetCommandShape(
    config: Option<CodeConfig>, before: string, after: string, projectName: string)
    requires HasPackage(config)
    requires forall i :: 0 <= i < |before| ==> !OccursAt(before + PackagePlaceholder + after, PackagePlaceholder, i)
    requires !Contains(after, PackagePlaceholder)
    ensures GetProjectNugetCommand(config, before + PackagePlaceholder + after, projectName)
            == before + config.value.nugetPackage + after + " " + projectName
  {
    ReplaceAllFirst(before, after, PackagePlaceholder, config.value.nugetPackage);
    ReplaceAllAbsent(after, PackagePlaceholder, config.value.nugetPackage);
  }

  /** A template without a placeholder is used verbatim. */
  lemma ProjectNugetCommandNoPlaceholder(config: Option<CodeConfig>, installTemplate: string, projectName: string)
    requires HasPackage(config)
    requires !Contains(installTemplate, PackagePlaceholder)
    ensures GetProjectNugetCommand(config, installTemplate, projectName) == installTemplate + " " + projectName
  {
    ReplaceAllAbsent(installTemplate, PackagePlaceholder, config.value.nugetPackage);
  }

  /** The install command is produced exactly when `GetNugetCommand` names a package. */
  lemma ProjectNugetCommandIffPackage(config: Option<CodeConfig>, installTemplate: string, projectName: string)
    ensures GetProjectNugetCommand(config, installTemplate, projectName) != "" <==> GetNugetCommand(config) != ""
  {
    if HasPackage(config) {
      var c := GetProjectNugetCommand(config, installTemplate, projectName);
      assert c[|c| - |projectName| - 1] == ' ';
    }
  }

  /** The file name suffix a plugin's bootstrap file gets by default. */
  const BootstrapSuffix: string := "PluginBootstrap.cs"

  /**
   * `GetBootstrapFileName`: the friendly name followed by "PluginBootstrap.cs",
   * unless the configuration names a non-empty override, which wins verbatim.
   */
  function GetBootstrapFileName(config: Option<CodeConfig>, friendlyName: string): (r: string)
    ensures config.Some? && config.value.bootstrapFileNameOverride != "" ==>
      r == config.value.bootstrapFileNameOverride
    ensures !(config.Some? && config.value.bootstrapFileNameOverride != "") ==>
      |r| == |friendlyName| + |BootstrapSuffix| && r[..|friendlyName|] == friendlyName
      && r[|friendlyName|..] == BootstrapSuffix
  {
    var bootstrapFileName := friendlyName + BootstrapSuffix;
    if config.Some? && config.value.bootstrapFileNameOverride != "" then
      config.value.bootstrapFileNameOverride
    else bootstrapFileName
  }

  /**
   * The bootstrap file name depends only on the override and the friendly name:
   * not on the package, the references or the code dependencies, and a missing
   * configuration behaves like an empty override.
   */
  lemma BootstrapFileNameFrame(config: CodeConfig, friendlyName: string,
                               package: string, references: seq<string>, dependencies: seq<CodeSnippet>)
    ensures GetBootstrapFileName(Some(config), friendlyName)
      == GetBootstrapFileName(Some(CodeConfig(package, references, config.bootstrapFileNameOverride, dependencies)), friendlyName)
    ensures GetBootstrapFileName(None, friendlyName)
      == GetBootstrapFileName(Some(config.(bootstrapFileNameOverride := "")), friendlyName)
  {
  }

  /**
   * `ProcessCodeConfig`: when a configuration is present and its assemblies are
   * copied from disk, one reference per entry of `references`, in order, under the
   * "Lib" folder, pointing from the destination directory to the source directory.
   * `directoryName` is the file system's `Path.GetDirectoryName`.
   */
  method ProcessCodeConfig(
    settings: Settings, config: Option<CodeConfig>, directoryName: string -> string,
    extensionSource: string, extensionDestination: string)
    returns (plan: seq<Reference>)
    ensures !(config.Some? && UseLocalDiskCopy(settings, config)) ==> plan == []
    ensures config.Some? && UseLocalDiskCopy(settings, config) ==>
      |plan| == |config.value.references|
      && forall k :: 0 <= k < |plan| ==>
           plan[k] == Reference(
             "Lib",
             directoryName(extensionDestination) + "\\" + config.value.references[k],
             directoryName(extensionSource) + "\\" + config.value.references[k],
             settings.includeLibFolderInProjects,
             settings.copyAssembliesToLibFolder)
  {
    plan := [];
    if config.Some? && UseLocalDiskCopy(settings, config) {
      var sourceDirectory := directoryName(extensionSource);
      var destinationDirectory := directoryName(extensionDestination);
      var references := config.value.references;
      var k := 0;
      while k < |references|
        invariant 0 <= k <= |references|
        invariant |plan| == k
        invariant forall n :: 0 <= n < k ==>
          plan[n] == Reference(
            "Lib",
            destinationDirectory + "\\" + references[n],
            sourceDirectory + "\\" + references[n],
            settings.includeLibFolderInProjects,
            settings.copyAssembliesToLibFolder)
      {
        plan := plan + [Reference(
          "Lib",
          destinationDirectory + "\\" + references[k],
          sourceDirectory + "\\" + references[k],
          settings.includeLibFolderInProjects,
          settings.copyAssembliesToLibFolder)];
        k := k + 1;
      }
    }
  }

  /**
   * Where the IDE's `InsertCode` puts new code in a method body, as an offset
   * into the body; offsets past the end mean the end.
   */
  type Placement = string -> nat

  function Min(a: nat, b: nat): nat {
    if a <= b then a else b
  }

  /** The body with `code` inserted at the placement's offset. */
  function InsertCode(body: string, code: string, place: Placement): (r: string)
    ensures |r| == |body| + |code|
    ensures var p := Min(place(body), |body|);
      r[..p] == body[..p] && OccursAt(r, code, p) && r[p + |code|..] == body[p..]
    ensures Contains(r, code)
  {
    var p := Min(place(body), |body|);
    var r := body[..p] + code + body[p..];
    assert r[p..p + |code|] == code;
    assert OccursAt(r, code, p);
    r
  }

  /** The file a snippet's class lives in. */
  function ClassFile(snippet: CodeSnippet): string {
    snippet.className + ".cs"
  }

  /** The snippet's project, class file and method can all be found. */
  predicate Resolves(sol: Solution, snippet: CodeSnippet) {
    HasMethod(sol, snippet.project, ClassFile(snippet), snippet.methodName)
  }

  function TargetBody(sol: Solution, snippet: CodeSnippet): string
    requires Resolves(sol, snippet)
  {
    BodyOf(sol, snippet.project, ClassFile(snippet), snippet.methodName)
  }

  /** The snippet's code, trimmed, already occurs in its target method, or there is no target. */
  predicate AlreadyApplied(sol: Solution, snippet: CodeSnippet) {
    Resolves(sol, snippet) ==> Contains(TargetBody(sol, snippet), Trim(snippet.code))
  }

  /** The message reporting an insertion, as formatted by `string.Format`. */
  function AddedMessage(projectName: string, className: string, methodName: string): string
  {
    "Code added to project " + projectName + " class " + className + " method " + methodName + "."
  }

  /** The message names the project, the class and the method, in that order, and ends with a full stop. */
  lemma AddedMessageShape(projectName: string, className: string, methodName: string)
    ensures var r := AddedMessage(projectName, className, methodName);
      && |r| == |"Code added to project  class  method ."| + |projectName| + |className| + |methodName|
      && var p := |"Code added to project "|;
      && r[..p] == "Code added to project "
      && r[p..p + |projectName|] == projectName
      && OccursAt(r, className, p + |projectName| + |" class "|)
      && OccursAt(r, methodName, |r| - 1 - |methodName|)
      && r[|r| - 1] == '.'
  {
  }

  /** The solution after an operation, and the messages it reported. */
  datatype Applied = Applied(solution: Solution, messages: seq<string>)

  /**
   * `ApplyCodeSnippet`: when the project, class and method are found and the
   * method body does not yet contain the trimmed code, the code is inserted once
   * into the existing body, which is kept around it, and one message names the
   * project, class and method; otherwise nothing changes and nothing is reported.
   */
  function ApplyCodeSnippet(sol: Solution, snippet: CodeSnippet, place: Placement): (r: Applied)
    ensures SameShape(sol, r.solution)
    ensures !Resolves(sol, snippet) ==> r == Applied(sol, [])
    ensures AlreadyApplied(sol, snippet) ==> r == Applied(sol, [])
    ensures !AlreadyApplied(sol, snippet) ==>
      && r.messages == [AddedMessage(sol.bySuffix[snippet.project].name, snippet.className, snippet.methodName)]
      && TargetBody(r.solution, snippet) == InsertCode(TargetBody(sol, snippet), snippet.code, place)
      && Contains(TargetBody(r.solution, snippet), snippet.code)
      && r.solution == WithBody(sol, snippet.project, ClassFile(snippet), snippet.methodName,
                                TargetBody(r.solution, snippet))
    ensures AlreadyApplied(r.solution, snippet)
  {
    if !Resolves(sol, snippet) then Applied(sol, [])
    else
      var code := TargetBody(sol, snippet);
      if Contains(code, Trim(snippet.code)) then Applied(sol, [])
      else
        var body := InsertCode(code, snippet.code, place);
        var sol' := WithBody(sol, snippet.project, ClassFile(snippet), snippet.methodName, body);
        ContainsTrim(snippet.code);
        ContainsTransitive(body, snippet.code, Trim(snippet.code));
        SameShapeHasMethod(sol, sol', snippet.project, ClassFile(snippet), snippet.methodName);
        Applied(sol', [AddedMessage(sol.bySuffix[snippet.project].name, snippet.className, snippet.methodName)])
  }

  /** Applying the same snippet a second time, at any placement, changes nothing and reports nothing. */
  lemma ApplyCodeSnippetIdempotent(sol: Solution, snippet: CodeSnippet, place: Placement, place': Placement)
    ensures var first := ApplyCodeSnippet(sol, snippet, place);
      ApplyCodeSnippet(first.solution, snippet, place') == Applied(first.solution, [])
  {
  }

  /** The messages the snippets of a list can report against `sol`, one per snippet whose project exists. */
  function PossibleMessages(sol: Solution, snippets: seq<CodeSnippet>): set<string> {
    set s | s in snippets && s.project in sol.bySuffix ::
      AddedMessage(sol.bySuffix[s.project].name, s.className, s.methodName)
  }

  /**
   * Only method bodies change along a run, so what a prefix can report, or the last
   * snippet can report later, the whole list can report against the starting solution.
   */
  lemma PossibleMessagesGrow(sol: Solution, sol': Solution, snippets: seq<CodeSnippet>)
    requires SameShape(sol, sol')
    requires |snippets| > 0
    ensures PossibleMessages(sol, snippets[..|snippets| - 1]) <= PossibleMessages(sol, snippets)
    ensures PossibleMessages(sol', [snippets[|snippets| - 1]]) <= PossibleMessages(sol, snippets)
  {
    var last := snippets[|snippets| - 1];
    forall m | m in PossibleMessages(sol, snippets[..|snippets| - 1])
      ensures m in PossibleMessages(sol, snippets)
    {
      var s :| s in snippets[..|snippets| - 1] && s.project in sol.bySuffix
        && m == AddedMessage(sol.bySuffix[s.project].name, s.className, s.methodName);
      assert s in snippets;
    }
    assert last in snippets;
  }

  /**
   * `ApplyCodeDependencies` over a list of snippets, as its loop runs: the snippets
   * before the last are applied first, then the last one to the solution they left,
   * and its messages follow theirs.
   */
  function ApplySnippets(sol: Solution, snippets: seq<CodeSnippet>, place: Placement): (r: Applied)
    ensures SameShape(sol, r.solution)
    ensures |r.messages| <= |snippets|
    ensures forall m :: m in r.messages ==> m in PossibleMessages(sol, snippets)
    ensures (forall s :: s in snippets ==> AlreadyApplied(sol, s)) ==> r == Applied(sol, [])
    decreases |snippets|
  {
    if snippets == [] then Applied(sol, [])
    else
      var last := snippets[|snippets| - 1];
      var before := ApplySnippets(sol, snippets[..|snippets| - 1], place);
      var turn := ApplyCodeSnippet(before.solution, last, place);
      SameShapeTransitive(sol, before.solution, turn.solution);
      PossibleMessagesGrow(sol, before.solution, snippets);
      assert forall s :: s in snippets[..|snippets| - 1] ==> s in snippets;
      assert forall m :: m in turn.messages ==> m in PossibleMessages(before.solution, [last]);
      Applied(turn.solution, before.messages + turn.messages)
  }

  /**
   * Turn by turn, in list order: the `k`-th snippet adds exactly one message, naming
   * its project, class and method, when it was not already applied in the solution
   * the earlier snippets left; otherwise it adds none and changes nothing.
   */
  lemma ApplySnippetsTurn(sol: Solution, snippets: seq<CodeSnippet>, place: Placement, k: nat)
    requires k < |snippets|
    ensures var before := ApplySnippets(sol, snippets[..k], place);
      var after := ApplySnippets(sol, snippets[..k + 1], place);
      var s := snippets[k];
      && (AlreadyApplied(before.solution, s) ==> after == before)
      && (!AlreadyApplied(before.solution, s) ==>
            && s.project in sol.bySuffix
            && after.messages == before.messages
                 + [AddedMessage(sol.bySuffix[s.project].name, s.className, s.methodName)]
            && after.solution == ApplyCodeSnippet(before.solution, s, place).solution)
  {
    var prefix := snippets[..k + 1];
    assert prefix[..|prefix| - 1] == snippets[..k];
    assert prefix[|prefix| - 1] == snippets[k];
  }

  /** Messages accumulate in list order: a run's messages extend those of each of its prefixes. */
  lemma {:induction false} RunMessagesExtend(sol: Solution, snippets: seq<CodeSnippet>, place: Placement, k: nat)
    requires k <= |snippets|
    ensures ApplySnippets(sol, snippets[..k], place).messages <= ApplySnippets(sol, snippets, place).messages
    decreases |snippets|
  {
    if k < |snippets| {
      var prefix := snippets[..|snippets| - 1];
      assert prefix[..k] == snippets[..k];
      RunMessagesExtend(sol, prefix, place, k);
    } else {
      assert snippets[..k] == snippets;
    }
  }

  /** A first snippet that is not yet applied reports first. */
  lemma ApplySnippetsFirst(sol: Solution, snippets: seq<CodeSnippet>, place: Placement)
    ensures |snippets| > 0 && !AlreadyApplied(sol, snippets[0]) ==>
      var r := ApplySnippets(sol, snippets, place);
      var s := snippets[0];
      && |r.messages| > 0
      && r.messages[0] == AddedMessage(sol.bySuffix[s.project].name, s.className, s.methodName)
  {
    if |snippets| > 0 && !AlreadyApplied(sol, snippets[0]) {
      assert snippets[..0] == [];
      ApplySnippetsTurn(sol, snippets, place, 0);
      RunMessagesExtend(sol, snippets, place, 1);
    }
  }

  /** A run leaves alone every method body that none of its snippets targets. */
  lemma {:induction false} RunFrame(sol: Solution, snippets: seq<CodeSnippet>, place: Placement,
                                    project: string, file: string, methodName: string)
    requires HasMethod(sol, project, file, methodName)
    requires forall s :: s in snippets ==> (s.project, ClassFile(s), s.methodName) != (project, file, methodName)
    ensures var r := ApplySnippets(sol, snippets, place);
      && HasMethod(r.solution, project, file, methodName)
      && BodyOf(r.solution, project, file, methodName) == BodyOf(sol, project, file, methodName)
    decreases |snippets|
  {
    var r := ApplySnippets(sol, snippets, place);
    SameShapeHasMethod(sol, r.solution, project, file, methodName);
    if snippets != [] {
      var prefix := snippets[..|snippets| - 1];
      var last := snippets[|snippets| - 1];
      var before := ApplySnippets(sol, prefix, place);
      assert forall s :: s in prefix ==> s in snippets;
      RunFrame(sol, prefix, place, project, file, methodName);
      assert last in snippets;
    }
  }

  /** `ApplyCodeDependencies`: applies every code dependency of the configuration, in order. */
  function ApplyCodeDependencies(sol: Solution, config: CodeConfig, place: Placement): (r: Applied)
    ensures SameShape(sol, r.solution)
    ensures |r.messages| <= |config.codeDependencies|
    ensures forall m :: m in r.messages ==> m in PossibleMessages(sol, config.codeDependencies)
    ensures var deps := config.codeDependencies;
      |deps| > 0 && !AlreadyApplied(sol, deps[0]) ==>
        && |r.messages| > 0
        && r.messages[0] == AddedMessage(sol.bySuffix[deps[0].project].name, deps[0].className, deps[0].methodName)
  {
    ApplySnippetsFirst(sol, config.codeDependencies, place);

    ApplySnippets(sol, config.codeDependencies, place)
  }

  /**
   * The placement inserts at one end of the body, never inside it. Which end the
   * IDE's `InsertCode` picks is not visible in the source.
   */
  ghost predicate InsertsAtAnEnd(place: Placement) {
    forall body :: place(body) == 0 || place(body) >= |body|
  }

  /** Inserting at an end of one method body keeps every snippet that was already applied applied. */
  lemma EndInsertKeepsApplied(sol: Solution, snippet: CodeSnippet, place: Placement, other: CodeSnippet)
    requires InsertsAtAnEnd(place)
    requires AlreadyApplied(sol, other)
    ensures AlreadyApplied(ApplyCodeSnippet(sol, snippet, place).solution, other)
  {
    var r := ApplyCodeSnippet(sol, snippet, place);
    SameShapeHasMethod(sol, r.solution, other.project, ClassFile(other), other.methodName);
    if !AlreadyApplied(sol, snippet) && Resolves(sol, other) {
      var body := TargetBody(sol, snippet);
      var body' := TargetBody(r.solution, snippet);
      if (other.project, ClassFile(other), other.methodName)
         == (snippet.project, ClassFile(snippet), snippet.methodName) {
        if place(body) == 0 {
          assert body'[|snippet.code|..] == body;
          assert body' == snippet.code + body;
          ContainsPrepend(body, Trim(other.code), snippet.code);
        } else {
          assert Min(place(body), |body|) == |body|;
          assert body'[..|body|] == body;
          assert body' == body + snippet.code;
          ContainsAppend(body, Trim(other.code), snippet.code);
        }
      }
    }
  }

  /** After a run over `snippets`, each of them is applied, and every snippet applied before still is. */
  lemma {:induction false} RunAppliesAll(sol: Solution, snippets: seq<CodeSnippet>, place: Placement, others: seq<CodeSnippet>)
    requires InsertsAtAnEnd(place)
    requires forall o :: o in others ==> AlreadyApplied(sol, o)
    ensures var r := ApplySnippets(sol, snippets, place);
      (forall s :: s in snippets ==> AlreadyApplied(r.solution, s))
      && (forall o :: o in others ==> AlreadyApplied(r.solution, o))
    decreases |snippets|
  {
    if snippets != [] {
      var prefix := snippets[..|snippets| - 1];
      var last := snippets[|snippets| - 1];
      var before := ApplySnippets(sol, prefix, place);
      RunAppliesAll(sol, prefix, place, others);
      forall o | o in others + prefix
        ensures AlreadyApplied(ApplyCodeSnippet(before.solution, last, place).solution, o)
      {
        EndInsertKeepsApplied(before.solution, last, place, o);
      }
      forall s | s in snippets
        ensures s in prefix || s == last
      {
        var i :| 0 <= i < |snippets| && snippets[i] == s;
        if i < |snippets| - 1 {
          assert prefix[i] == s;
        }
      }
    }
  }

  /**
   * Re-running the code dependencies of a configuration, with the IDE inserting
   * code verbatim at one end of each method, changes nothing and reports nothing.
   */
  lemma ApplyCodeDependenciesIdempotent(sol: Solution, config: CodeConfig, place: Placement)
    requires InsertsAtAnEnd(place)
    ensures var first := ApplyCodeDependencies(sol, config, place);
      ApplyCodeDependencies(first.solution, config, place) == Applied(first.solution, [])
  {
    RunAppliesAll(sol, config.codeDependencies, place, []);
  }
}
