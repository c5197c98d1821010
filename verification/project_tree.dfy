/**
 * An abstract view of the IDE's solution: what the engine can look up and the
 * one thing it can change, the text of a method body.
 */
module ProjectTree {
  import opened Wrappers

  /** A source file, reduced to its first class: the body text of each method, by name. */
  datatype Item = Item(methods: map<string, string>)

  /** A project: its display name and its files, keyed by file name. */
  datatype Project = Project(name: string, items: map<string, Item>)

  /**
   * The solution, as the host resolves it: the project each project-name suffix
   * designates.
   */
  datatype Solution = Solution(bySuffix: map<string, Project>)

  /** `GetProjectItem`: the file stored under `key`, if there is one. */
  function GetProjectItem(p: Project, key: string): (r: Option<Item>)
    ensures r.Some? <==> key in p.items
    ensures r.Some? ==> r.value == p.items[key]
  {
    if key in p.items then Some(p.items[key]) else None
  }

  /** Method `methodName` of file `file` of the project under `suffix` exists. */
  predicate HasMethod(sol: Solution, suffix: string, file: string, methodName: string) {
    && suffix in sol.bySuffix
    && file in sol.bySuffix[suffix].items
    && methodName in sol.bySuffix[suffix].items[file].methods
  }

  function BodyOf(sol: Solution, suffix: string, file: string, methodName: string): string
    requires HasMethod(sol, suffix, file, methodName)
  {
    sol.bySuffix[suffix].items[file].methods[methodName]
  }

  /** Replaces one method body; every other body, name and key is kept. */
  function WithBody(sol: Solution, suffix: string, file: string, methodName: string, body: string): (r: Solution)
    requires HasMethod(sol, suffix, file, methodName)
    ensures SameShape(sol, r)
    ensures BodyOf(r, suffix, file, methodName) == body
    ensures forall s, f, m :: HasMethod(sol, s, f, m) && (s, f, m) != (suffix, file, methodName)
              ==> BodyOf(r, s, f, m) == BodyOf(sol, s, f, m)
  {
    var p := sol.bySuffix[suffix];
    var item := p.items[file];
    var item' := Item(item.methods[methodName := body]);
    Solution(sol.bySuffix[suffix := Project(p.name, p.items[file := item'])])
  }

  /** Two solutions with the same projects, names, files and methods; only bodies may differ. */
  predicate SameShape(sol: Solution, sol': Solution) {
    && sol.bySuffix.Keys == sol'.bySuffix.Keys
    && forall s :: s in sol.bySuffix ==>
         && sol.bySuffix[s].name == sol'.bySuffix[s].name
         && sol.bySuffix[s].items.Keys == sol'.bySuffix[s].items.Keys
         && forall f :: f in sol.bySuffix[s].items ==>
              sol.bySuffix[s].items[f].methods.Keys == sol'.bySuffix[s].items[f].methods.Keys
  }

  lemma SameShapeTransitive(a: Solution, b: Solution, c: Solution)
    requires SameShape(a, b) && SameShape(b, c)
    ensures SameShape(a, c)
  {
  }

  lemma SameShapeHasMethod(sol: Solution, sol': Solution, suffix: string, file: string, methodName: string)
    requires SameShape(sol, sol')
    ensures HasMethod(sol, suffix, file, methodName) <==> HasMethod(sol', suffix, file, methodName)
  {
  }
}
