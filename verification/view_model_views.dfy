/**
 * Adding a view model and its views: the names derived from a view-model name,
 * and which wiring edits follow template creation, in what order, on which file,
 * with which values bound into the navigation snippet.
 */
module ViewModelViews {
  import opened Wrappers
  import opened Text
  import opened ProjectTree

  /** The marker a view-model name is expected to contain. */
  const Marker: string := "ViewModel"

  /** The name returned when the marker is absent. */
  const UnknownCommand: string := "UnknownCommand"

  /** `i` is the first ordinal occurrence of the marker in `name`. */
  predicate FirstMarkerAt(name: string, i: int) {
    OccursAt(name, Marker, i) && forall j :: 0 <= j < i ==> !OccursAt(name, Marker, j)
  }

  /**
   * `GetCommandName`: the text before the first "ViewModel" followed by
   * "Command", or the sentinel when "ViewModel" does not occur.
   */
  function GetCommandName(name: string): (r: string)
    ensures !Contains(name, Marker) ==> r == UnknownCommand
    ensures forall i :: FirstMarkerAt(name, i) ==> r == name[..i] + "Command"
  {
    var index := IndexOf(name, Marker);
    if index != -1 then name[..index] + "Command" else UnknownCommand
  }

  /**
   * `GetCommandNameInstance`: the same stem, lowered in full, followed by
   * "Command"; the sentinel when "ViewModel" does not occur.
   */
  function GetCommandNameInstance(name: string): (r: string)
    ensures !Contains(name, Marker) ==> r == UnknownCommand
    ensures forall i :: FirstMarkerAt(name, i) ==> r == ToLower(name[..i]) + "Command"
  {
    var command := GetCommandName(name);
    var index := IndexOf(name, Marker);
    if index != -1 then ToLower(name[..index]) + "Command" else command
  }

  /**
   * The two derived names agree in length and in their "Command" ending, and the
   * instance form is the command name with its stem lowered.
   */
  lemma CommandNamesAgree(name: string)
    ensures |GetCommandNameInstance(name)| == |GetCommandName(name)| >= 7
    ensures var c := GetCommandName(name); var n := GetCommandNameInstance(name);
      && c[|c| - 7..] == n[|n| - 7..] == "Command"
      && (Contains(name, Marker) ==> n[..|n| - 7] == ToLower(c[..|c| - 7]))
      && (!Contains(name, Marker) ==> n == c)
  {
    var index := IndexOf(name, Marker);
    if index != -1 {
      assert FirstMarkerAt(name, index);
      var c := GetCommandName(name);
      var n := GetCommandNameInstance(name);
      assert c == name[..index] + "Command";
      assert n == ToLower(name[..index]) + "Command";
      assert c[..|c| - 7] == name[..index];
      assert n[..|n| - 7] == ToLower(name[..index]);
    }
  }

  /** The marker cannot start before the first 'V'. */
  lemma NoMarkerBefore(name: string, i: nat)
    requires i <= |name|
    requires forall j :: 0 <= j < i ==> name[j] != 'V'
    ensures forall j :: 0 <= j < i ==> !OccursAt(name, Marker, j)
  {
    forall j | 0 <= j < i
      ensures !OccursAt(name, Marker, j)
    {
      assert j + |Marker| <= |name| ==> name[j..j + |Marker|][0] == name[j];
    }
  }

  /**
   * Building a name from a stem, the marker and any rest: when the marker does not
   * start inside the stem, the derived names are built from exactly that stem.
   */
  lemma DerivedFromStem(stem: string, rest: string)
    requires forall j :: 0 <= j < |stem| ==> !OccursAt(stem + Marker + rest, Marker, j)
    ensures GetCommandName(stem + Marker + rest) == stem + "Command"
    ensures GetCommandNameInstance(stem + Marker + rest) == ToLower(stem) + "Command"
  {
    var name := stem + Marker + rest;
    assert name[|stem|..|stem| + |Marker|] == Marker;
    assert FirstMarkerAt(name, |stem|);
    assert name[..|stem|] == stem;
  }

  /** A stem without any 'V', followed by the marker, derives its names from the whole stem. */
  lemma StemThenMarker(stem: string)
    requires forall j :: 0 <= j < |stem| ==> stem[j] != 'V'
    ensures GetCommandName(stem + Marker) == stem + "Command"
    ensures GetCommandNameInstance(stem + Marker) == ToLower(stem) + "Command"
  {
    assert stem + Marker == stem + Marker + "";
    NoMarkerBefore(stem + Marker, |stem|);
    DerivedFromStem(stem, "");
  }

  /**
   * The worked example: "Orders" + "ViewModel" gives "OrdersCommand" and "ordersCommand".
   * The stem is a parameter pinned by the precondition: written as a literal, the
   * verifier unfolds the marker search over the constant name and runs out of resource.
   */
  lemma OrdersExample(stem: string)
    requires stem == "Orders"
    ensures GetCommandName(stem + Marker) == "OrdersCommand"
    ensures GetCommandNameInstance(stem + Marker) == "ordersCommand"
  {
    StemThenMarker(stem);
    LowerExamples();
  }

  /**
   * The whole stem is lowered, not only its first character: "MyOrders" gives
   * "myordersCommand". The stem is a parameter for the reason given at `OrdersExample`.
   */
  lemma WholeStemLoweredExample(stem: string)
    requires stem == "MyOrders"
    ensures GetCommandName(stem + Marker) == "MyOrdersCommand"
    ensures GetCommandNameInstance(stem + Marker) == "myordersCommand"
  {
    StemThenMarker(stem);
    LowerExamples();
  }

  lemma LowerExamples()
    ensures ToLower("Orders") == "orders"
    ensures ToLower("MyOrders") == "myorders"
  {
  }

  /** Without the marker both names are the sentinel; with it at the start the stem is empty. */
  lemma SentinelAndEmptyStemExamples()
    ensures GetCommandName("Orders") == UnknownCommand
    ensures GetCommandNameInstance("Orders") == UnknownCommand
    ensures GetCommandName("ViewModelViewModel") == "Command"
  {
    assert !Contains("Orders", Marker);
    var twice := "ViewModelViewModel";
    assert twice[..9] == Marker;
    assert OccursAt(twice, Marker, 0);
    assert FirstMarkerAt(twice, 0);
  }

  /** `GetViewModelItemService`: the view model's file is looked up as its name plus ".cs". */
  function GetViewModelItem(core: Project, viewModelName: string): (r: Option<Item>)
    ensures r.Some? <==> viewModelName + ".cs" in core.items
    ensures r.Some? ==> r.value == core.items[viewModelName + ".cs"]
  {
    GetProjectItem(core, viewModelName + ".cs")
  }

  /** The replacement variables of the navigation snippet. */
  datatype Variable = ViewModelNameVar | CommandNameVar | CommandNameInstanceVar

  datatype Binding = Binding(variable: Variable, value: string)

  /** A literal replacement applied across a whole test file. */
  datatype Replacement = Replacement(find: string, replaceWith: string)

  /** An edit the engine asks of the IDE, naming the file it applies to. */
  datatype Action =
    | UpdateTestClassAttribute(testItem: string)
    | UpdateTestMethodAttribute(testItem: string)
    | UpdateTestFile(testItem: string, replacements: seq<Replacement>)
    | ImplementSnippet(file: string, bindings: seq<Binding>)
  {
    predicate IsTestEdit() { !ImplementSnippet? }
  }

  /** The value bound to `v`: the first binding for it, if any. */
  function Lookup(bindings: seq<Binding>, v: Variable): Option<string>
  {
    if bindings == [] then None
    else if bindings[0].variable == v then Some(bindings[0].value)
    else Lookup(bindings[1..], v)
  }

  /** In a list of three bindings, each variable is found at its first position. */
  lemma LookupOfThree(bindings: seq<Binding>)
    requires |bindings| == 3
    ensures forall v: Variable ::
      Lookup(bindings, v) ==
        (if bindings[0].variable == v then Some(bindings[0].value)
         else if bindings[1].variable == v then Some(bindings[1].value)
         else if bindings[2].variable == v then Some(bindings[2].value)
         else None)
  {
    assert bindings[1..][1..] == bindings[2..];
    assert bindings[2..][1..] == [];
    forall v: Variable
      ensures Lookup(bindings, v) ==
        (if bindings[0].variable == v then Some(bindings[0].value)
         else if bindings[1].variable == v then Some(bindings[1].value)
         else if bindings[2].variable == v then Some(bindings[2].value)
         else None)
    {
      assert Lookup(bindings[2..], v) == (if bindings[2].variable == v then Some(bindings[2].value) else None);
      assert Lookup(bindings[1..], v) == (if bindings[1].variable == v then Some(bindings[1].value) else Lookup(bindings[2..], v));
    }
  }

  /** The bindings carry `name` and the two command names derived from that same `name`. */
  predicate BindsNamesOf(bindings: seq<Binding>, name: string) {
    && Lookup(bindings, ViewModelNameVar) == Some(name)
    && Lookup(bindings, CommandNameVar) == Some(GetCommandName(name))
    && Lookup(bindings, CommandNameInstanceVar) == Some(GetCommandNameInstance(name))
  }

  /** The key under which the test counterpart of a view model is looked up. */
  function TestItemKey(viewModelName: string): string {
    "Test" + viewModelName
  }

  predicate HasTestItem(testProject: Option<Project>, viewModelName: string) {
    testProject.Some? && TestItemKey(viewModelName) in testProject.value.items
  }

  /**
   * `UpdateUnitTestFile`: when the test project and the item "Test" + name both
   * exist, mark the test class and methods, then replace the placeholder view-model
   * name and its instance form by the new name and its instance form.
   */
  function UpdateUnitTestFile(testProject: Option<Project>, viewModelName: string): (r: seq<Action>)
    ensures !HasTestItem(testProject, viewModelName) ==> r == []
    ensures HasTestItem(testProject, viewModelName) ==>
      var key := TestItemKey(viewModelName);
      r == [UpdateTestClassAttribute(key), UpdateTestMethodAttribute(key),
            UpdateTestFile(key, [Replacement("FirstViewModel", viewModelName),
                                 Replacement("firstViewModel", LowerFirst(viewModelName))])]
  {
    match testProject
    case None => []
    case Some(project) =>
      match GetProjectItem(project, TestItemKey(viewModelName))
      case None => []
      case Some(_) =>
        var key := TestItemKey(viewModelName);
        [UpdateTestClassAttribute(key), UpdateTestMethodAttribute(key),
         UpdateTestFile(key, [Replacement("FirstViewModel", viewModelName),
                              Replacement("firstViewModel", LowerFirst(viewModelName))])]
  }

  /**
   * The test rewrite is case-consistent: the second replacement maps the instance
   * form of the placeholder to the instance form of the new name.
   */
  lemma UnitTestReplacementsCaseConsistent(testProject: Option<Project>, viewModelName: string)
    requires HasTestItem(testProject, viewModelName)
    ensures var r := UpdateUnitTestFile(testProject, viewModelName);
      var first := r[2].replacements[0];
      && r[2].UpdateTestFile?
      && |r[2].replacements| == 2
      && first.replaceWith == viewModelName
      && r[2].replacements[1] == Replacement(LowerFirst(first.find), LowerFirst(first.replaceWith))
  {
    assert LowerFirst("FirstViewModel") == [LowerChar('F')] + "FirstViewModel"[1..];
    assert LowerChar('F') == 'f';
    assert "FirstViewModel"[1..] == "irstViewModel";
  }

  /**
   * `UpdateInitViewModel`: edits the initiating view model's file, binding the NEW
   * view model's name and command names; nothing when that file is missing.
   */
  function UpdateInitViewModel(core: Project, viewModelName: string, initViewModelName: string): (r: seq<Action>)
    ensures |r| <= 1
    ensures |r| == 1 <==> initViewModelName + ".cs" in core.items
    ensures |r| == 1 ==> r[0].ImplementSnippet? && r[0].file == initViewModelName + ".cs"
    ensures |r| == 1 ==> BindsNamesOf(r[0].bindings, viewModelName)
    ensures |r| == 1 ==> (r[0].bindings ==
      [Binding(ViewModelNameVar, viewModelName),
       Binding(CommandNameInstanceVar, GetCommandNameInstance(viewModelName)),
       Binding(CommandNameVar, GetCommandName(viewModelName))])
  {
    match GetViewModelItem(core, initViewModelName)
    case None => []
    case Some(_) =>
      var bindings :=
        [Binding(ViewModelNameVar, viewModelName),
         Binding(CommandNameInstanceVar, GetCommandNameInstance(viewModelName)),
         Binding(CommandNameVar, GetCommandName(viewModelName))];
      LookupOfThree(bindings);
      [ImplementSnippet(initViewModelName + ".cs", bindings)]
  }

  /**
   * `UpdateNavigateToViewModel`: edits the NEW view model's file, binding the
   * target view model's name and command names; nothing when that file is missing.
   */
  function UpdateNavigateToViewModel(core: Project, viewModelName: string, navigateToViewModelName: string): (r: seq<Action>)
    ensures |r| <= 1
    ensures |r| == 1 <==> viewModelName + ".cs" in core.items
    ensures |r| == 1 ==> r[0].ImplementSnippet? && r[0].file == viewModelName + ".cs"
    ensures |r| == 1 ==> BindsNamesOf(r[0].bindings, navigateToViewModelName)
    ensures |r| == 1 ==> (r[0].bindings ==
      [Binding(ViewModelNameVar, navigateToViewModelName),
       Binding(CommandNameVar, GetCommandName(navigateToViewModelName)),
       Binding(CommandNameInstanceVar, GetCommandNameInstance(navigateToViewModelName))])
  {
    match GetViewModelItem(core, viewModelName)
    case None => []
    case Some(_) =>
      var bindings :=
        [Binding(ViewModelNameVar, navigateToViewModelName),
         Binding(CommandNameVar, GetCommandName(navigateToViewModelName)),
         Binding(CommandNameInstanceVar, GetCommandNameInstance(navigateToViewModelName))];
      LookupOfThree(bindings);
      [ImplementSnippet(viewModelName + ".cs", bindings)]
  }

  /** Test edits followed by snippet edits: the position of an edit tells its kind. */
  lemma ActionsLayout(tests: seq<Action>, init: seq<Action>, navigate: seq<Action>)
    requires forall a :: a in tests ==> a.IsTestEdit()
    requires forall a :: a in init ==> !a.IsTestEdit()
    requires forall a :: a in navigate ==> !a.IsTestEdit()
    ensures var actions := tests + init + navigate;
      && (forall k :: 0 <= k < |actions| ==> (actions[k].IsTestEdit() <==> k < |tests|))
      && actions[..|tests|] == tests
      && (|init| > 0 ==> actions[|tests|] == init[0])
      && (|navigate| > 0 ==> actions[|actions| - 1] == navigate[|navigate| - 1])
  {
    var actions := tests + init + navigate;
    forall k | 0 <= k < |actions|
      ensures actions[k].IsTestEdit() <==> k < |tests|
    {
      if k < |tests| {
        assert actions[k] == tests[k];
      } else if k < |tests| + |init| {
        assert actions[k] == init[k - |tests|];
      } else {
        assert actions[k] == navigate[k - |tests| - |init|];
      }
    }
    assert actions[..|tests|] == tests;
  }

  /** What one run returns: the template-creation messages, and the edits it made, in order. */
  datatype Run = Run(messages: seq<string>, actions: seq<Action>)

  /** How many test edits a run makes. */
  function TestEdits(addUnitTests: bool, testProject: Option<Project>, viewModelName: string): nat {
    if addUnitTests && HasTestItem(testProject, viewModelName) then 3 else 0
  }

  predicate InitRuns(core: Project, initiateFrom: string) {
    initiateFrom != "" && initiateFrom + ".cs" in core.items
  }

  predicate NavigateRuns(core: Project, viewModelName: string, navigateTo: string) {
    navigateTo != "" && viewModelName + ".cs" in core.items
  }

  /**
   * `AddViewModelAndViews`: after the IDE creates the templates (returning
   * `templateMessages`), the test update runs only when asked for, the init update
   * only for a non-empty initiate-from name, the navigate update only for a
   * non-empty navigate-to name, in that order. A null name counts as "".
   * `core` and `testProject` are the projects as template creation left them, so
   * the lookups that decide each update see the files it added.
   */
  function AddViewModelAndViews(
    core: Project, testProject: Option<Project>, templateMessages: seq<string>,
    viewModelName: string, addUnitTests: bool, initiateFrom: string, navigateTo: string): (r: Run)
    ensures r.messages == templateMessages
    ensures var t := TestEdits(addUnitTests, testProject, viewModelName);
      && |r.actions| == t + (if InitRuns(core, initiateFrom) then 1 else 0)
                          + (if NavigateRuns(core, viewModelName, navigateTo) then 1 else 0)
      && (forall k :: 0 <= k < |r.actions| ==> (r.actions[k].IsTestEdit() <==> k < t))
      && (InitRuns(core, initiateFrom) ==>
            r.actions[t].file == initiateFrom + ".cs" && BindsNamesOf(r.actions[t].bindings, viewModelName))
      && (NavigateRuns(core, viewModelName, navigateTo) ==>
            var last := r.actions[|r.actions| - 1];
            last.file == viewModelName + ".cs" && BindsNamesOf(last.bindings, navigateTo))
    ensures addUnitTests && HasTestItem(testProject, viewModelName) ==>
      r.actions[..3] == UpdateUnitTestFile(testProject, viewModelName)
  {
    var tests := if addUnitTests then UpdateUnitTestFile(testProject, viewModelName) else [];
    var init := if initiateFrom != "" then UpdateInitViewModel(core, viewModelName, initiateFrom) else [];
    var navigate := if navigateTo != "" then UpdateNavigateToViewModel(core, viewModelName, navigateTo) else [];
    assert |tests| == TestEdits(addUnitTests, testProject, viewModelName);
    assert |init| == (if InitRuns(core, initiateFrom) then 1 else 0);
    assert |navigate| == (if NavigateRuns(core, viewModelName, navigateTo) then 1 else 0);
    assert InitRuns(core, initiateFrom) ==>
      init[0].file == initiateFrom + ".cs" && BindsNamesOf(init[0].bindings, viewModelName);
    assert NavigateRuns(core, viewModelName, navigateTo) ==>
      navigate[0].file == viewModelName + ".cs" && BindsNamesOf(navigate[0].bindings, navigateTo);
    ActionsLayout(tests, init, navigate);
    Run(templateMessages, tests + init + navigate)
  }
}
