/**
The source side of a session copy (agentwrapper/accounts/claude_session.go): the account as a tree of files, the steps
that CopyClaudeSession takes for one session, and which files those are.
*/
module SessionPlan {
  import opened Wrappers
  import opened GoText
  import opened CopySteps

  /** Skipped stands for symlinks and special files. */
  datatype Tree = Leaf(data: string) | Dir(children: seq<Child>) | Skipped

  /** One entry of a directory listing. */
  datatype Child = Child(name: string, tree: Tree)

  /** No directory lists a name twice. */
  predicate WellFormed(t: Tree) {
    t.Dir? ==> WellFormedList(t.children)
  }

  predicate WellFormedList(children: seq<Child>) {
    && (forall i, j :: 0 <= i < j < |children| ==> children[i].name != children[j].name)
    && (forall i :: 0 <= i < |children| ==> WellFormed(children[i].tree))
  }

  function Find(children: seq<Child>, name: string): Option<Tree> {
    if children == [] then None
    else if children[0].name == name then Some(children[0].tree)
    else Find(children[1..], name)
  }

  function Lookup(t: Tree, path: Path): Option<Tree>
    decreases |path|
  {
    if path == [] then Some(t)
    else if !t.Dir? then None
    else
      match Find(t.children, path[0])
      case None => None
      case Some(u) => Lookup(u, path[1..])
  }

  /** The listing of the real directory of that name, if there is one. */
  function DirAt(children: seq<Child>, name: string): Option<seq<Child>> {
    match Find(children, name)
    case Some(Dir(cs)) => Some(cs)
    case _ => None
  }

  /** The content of the regular file of that name, if there is one. */
  function FileAt(children: seq<Child>, name: string): Option<string> {
    match Find(children, name)
    case Some(Leaf(data)) => Some(data)
    case _ => None
  }

  // ----- The steps -----

  /** Every directory on the way to rel, outermost first. */
  function DirSteps(rel: Path): seq<Step> {
    if rel == [] then [] else DirSteps(rel[..|rel| - 1]) + [EnsureDir(rel)]
  }

  function FileSteps(rel: Path, data: string): seq<Step>
    requires rel != []
  {
    DirSteps(rel[..|rel| - 1]) + [Copy(rel, data)]
  }

  function TreeSteps(children: seq<Child>, rel: Path): seq<Step>
    decreases children, 1
  {
    DirSteps(rel) + ChildrenSteps(children, rel)
  }

  function ChildrenSteps(children: seq<Child>, rel: Path): seq<Step>
    decreases children, 0
  {
    if children == [] then [] else ChildSteps(children[0], rel) + ChildrenSteps(children[1..], rel)
  }

  function ChildSteps(c: Child, rel: Path): seq<Step>
    decreases c
  {
    match c.tree
    case Leaf(data) => FileSteps(rel + [c.name], data)
    case Dir(cs) => TreeSteps(cs, rel + [c.name])
    case Skipped => []
  }

  /** projects/<proj>/<sid>/ of every project. */
  function ProjectTreeSteps(projects: seq<Child>, sid: string): seq<Step> {
    if projects == [] then []
    else OneProjectSteps(projects[0], sid) + ProjectTreeSteps(projects[1..], sid)
  }

  function OneProjectSteps(project: Child, sid: string): seq<Step> {
    if !project.tree.Dir? then []
    else
      match DirAt(project.tree.children, sid)
      case Some(cs) => TreeSteps(cs, ["projects", project.name, sid])
      case None => []
  }

  /** file-history/<sid>/ or session-env/<sid>/. */
  function StoreSteps(account: seq<Child>, store: string, sid: string): seq<Step> {
    match DirAt(account, store)
    case None => []
    case Some(sessions) =>
      match DirAt(sessions, sid)
      case None => []
      case Some(cs) => TreeSteps(cs, [store, sid])
  }

  /** The glob <sid>-*.json. */
  predicate IsTodo(name: string, sid: string) {
    |name| >= |sid| + 6 && HasPrefix(name, sid + "-") && HasSuffix(name, ".json")
  }

  function TodoSteps(todos: seq<Child>, sid: string): seq<Step> {
    if todos == [] then []
    else OneTodoSteps(todos[0], sid) + TodoSteps(todos[1..], sid)
  }

  function OneTodoSteps(todo: Child, sid: string): seq<Step> {
    if IsTodo(todo.name, sid) && todo.tree.Leaf? then FileSteps(["todos", todo.name], todo.tree.data) else []
  }

  /** The projects that hold the session, with the content of its jsonl. */
  function Jsonls(projects: seq<Child>, sid: string): seq<(string, string)> {
    if projects == [] then []
    else OneJsonl(projects[0], sid) + Jsonls(projects[1..], sid)
  }

  function OneJsonl(project: Child, sid: string): seq<(string, string)> {
    if !project.tree.Dir? then []
    else
      match FileAt(project.tree.children, sid + ".jsonl")
      case Some(data) => [(project.name, data)]
      case None => []
  }

  function JsonlPath(project: string, sid: string): Path {
    ["projects", project, sid + ".jsonl"]
  }

  function JsonlSteps(found: seq<(string, string)>, sid: string): seq<Step> {
    if found == [] then []
    else FileSteps(JsonlPath(found[0].0, sid), found[0].1) + JsonlSteps(found[1..], sid)
  }

  function Listing(account: seq<Child>, name: string): seq<Child> {
    match DirAt(account, name)
    case Some(cs) => cs
    case None => []
  }

  /** Everything that is copied before the first jsonl. */
  function AncillarySteps(account: seq<Child>, sid: string): seq<Step> {
    ProjectTreeSteps(Listing(account, "projects"), sid)
    + StoreSteps(account, "file-history", sid)
    + StoreSteps(account, "session-env", sid)
    + TodoSteps(Listing(account, "todos"), sid)
  }

  function Plan(account: seq<Child>, sid: string): seq<Step> {
    AncillarySteps(account, sid) + JsonlSteps(Jsonls(Listing(account, "projects"), sid), sid)
  }

  // ----- The session family -----

  predicate IsJsonl(p: Path, sid: string) {
    |p| == 3 && p[0] == "projects" && p[2] == sid + ".jsonl"
  }

  predicate IsProjectFile(p: Path, sid: string) {
    |p| > 3 && p[0] == "projects" && p[2] == sid
  }

  predicate IsStoreFile(p: Path, store: string, sid: string) {
    |p| > 2 && p[0] == store && p[1] == sid
  }

  predicate IsTodoFile(p: Path, sid: string) {
    |p| == 2 && p[0] == "todos" && IsTodo(p[1], sid)
  }

  /** The files of a session other than its jsonl. */
  predicate IsAncillary(p: Path, sid: string) {
    IsProjectFile(p, sid) || IsStoreFile(p, "file-history", sid) || IsStoreFile(p, "session-env", sid) || IsTodoFile(p, sid)
  }

  /** The directories on the way to a file of the session. */
  predicate IsFamilyDir(p: Path, sid: string) {
    p != [] && match p[0]
    case "projects" => |p| >= 3 ==> p[2] == sid
    case "file-history" => |p| >= 2 ==> p[1] == sid
    case "session-env" => |p| >= 2 ==> p[1] == sid
    case "todos" => |p| == 1
    case _ => false
  }

  // ----- The plan covers exactly the family -----

  predicate Beyond(rel: Path, p: Path) {
    |p| > |rel| && p[..|rel|] == rel
  }

  predicate IsLeaf(t: Option<Tree>, data: string) {
    t == Some(Leaf(data))
  }

  lemma {:induction false} FindAbsent(children: seq<Child>, name: string)
    requires forall i :: 0 <= i < |children| ==> children[i].name != name
    ensures Find(children, name) == None
  {
    if children != [] { FindAbsent(children[1..], name); }
  }

  /** A name that the first entry has is not found in the rest. */
  lemma FindSplits(children: seq<Child>, name: string)
    requires children != [] && WellFormedList(children)
    ensures WellFormedList(children[1..]) && WellFormed(children[0].tree)
    ensures children[0].name == name ==> Find(children[1..], name) == None
  {
    if children[0].name == name { FindAbsent(children[1..], name); }
  }

  lemma {:induction false} FoundIsWellFormed(children: seq<Child>, name: string)
    requires WellFormedList(children) && Find(children, name).Some?
    ensures WellFormed(Find(children, name).value)
  {
    FindSplits(children, name);
    if children[0].name != name { FoundIsWellFormed(children[1..], name); }
  }

  lemma {:induction false} DirStepsCopyNothing(rel: Path, p: Path, data: string)
    ensures Copy(p, data) !in DirSteps(rel)
    decreases |rel|
  {
    if rel != [] { DirStepsCopyNothing(rel[..|rel| - 1], p, data); }
  }

  lemma FileStepsCopyOne(rel: Path, d: string, p: Path, data: string)
    requires rel != []
    ensures Copy(p, data) in FileSteps(rel, d) <==> p == rel && data == d
  {
    DirStepsCopyNothing(rel[..|rel| - 1], p, data);
  }

  lemma BeyondOne(rel: Path, name: string, p: Path)
    ensures Beyond(rel + [name], p) <==> Beyond(rel, p) && |p| > |rel| + 1 && p[|rel|] == name
    ensures p == rel + [name] <==> Beyond(rel, p) && p[|rel|] == name && p[|rel| + 1..] == []
  {
    if Beyond(rel, p) && p[|rel|] == name {
      assert p[..|rel| + 1] == rel + [name];
      if p[|rel| + 1..] == [] { assert p == p[..|rel| + 1]; }
    }
  }

  predicate CopiesChild(c: Child, rel: Path, p: Path, data: string) {
    Beyond(rel, p) && p[|rel|] == c.name && IsLeaf(Lookup(c.tree, p[|rel| + 1..]), data)
  }

  predicate CopiesTree(children: seq<Child>, rel: Path, p: Path, data: string) {
    Beyond(rel, p) && IsLeaf(Lookup(Dir(children), p[|rel|..]), data)
  }

  lemma CopiesFirstOrRest(children: seq<Child>, rel: Path, p: Path, data: string)
    requires children != [] && WellFormedList(children)
    ensures WellFormedList(children[1..]) && WellFormed(children[0].tree)
    ensures CopiesTree(children, rel, p, data) <==>
            CopiesChild(children[0], rel, p, data) || CopiesTree(children[1..], rel, p, data)
  {
    FindSplits(children, if Beyond(rel, p) then p[|rel|] else "");
    if Beyond(rel, p) {
      var q := p[|rel|..];
      assert q[0] == p[|rel|] && q[1..] == p[|rel| + 1..];
      hide WellFormedList, WellFormed;
    }
  }

  /** The steps of a directory copy every regular file beneath it, each to the same place, and no other file. */
  lemma {:induction false} TreeCopies(children: seq<Child>, rel: Path, p: Path, data: string)
    requires WellFormedList(children)
    ensures Copy(p, data) in TreeSteps(children, rel) <==> CopiesTree(children, rel, p, data)
    decreases children, 1
  {
    DirStepsCopyNothing(rel, p, data);
    ChildrenCopy(children, rel, p, data);
    hide DirSteps, ChildrenSteps, CopiesTree;
  }

  lemma {:induction false} ChildrenCopy(children: seq<Child>, rel: Path, p: Path, data: string)
    requires WellFormedList(children)
    ensures Copy(p, data) in ChildrenSteps(children, rel) <==> CopiesTree(children, rel, p, data)
    decreases children, 0
  {
    if children != [] {
      hide CopiesTree, CopiesChild, ChildSteps, WellFormedList, WellFormed;
      CopiesFirstOrRest(children, rel, p, data);
      ChildCopies(children[0], rel, p, data);
      ChildrenCopy(children[1..], rel, p, data);
    }
  }

  lemma {:induction false} ChildCopies(c: Child, rel: Path, p: Path, data: string)
    requires WellFormed(c.tree)
    ensures Copy(p, data) in ChildSteps(c, rel) <==> CopiesChild(c, rel, p, data)
    decreases c
  {
    hide FileSteps, TreeSteps, DirSteps, ChildrenSteps;
    BeyondOne(rel, c.name, p);
    match c.tree
    case Leaf(d) => FileStepsCopyOne(rel + [c.name], d, p, data);
    case Dir(cs) => TreeCopies(cs, rel + [c.name], p, data);
    case Skipped =>
  }

  lemma LookupBelow(t: Tree, q: Path, data: string)
    requires |q| > 1
    ensures IsLeaf(Lookup(t, q), data) <==>
            t.Dir? && DirAt(t.children, q[0]).Some? && IsLeaf(Lookup(Dir(DirAt(t.children, q[0]).value), q[1..]), data)
  {
  }

  lemma LookupFile(t: Tree, name: string, data: string)
    ensures IsLeaf(Lookup(t, [name]), data) <==> t.Dir? && FileAt(t.children, name) == Some(data)
  {
    assert [name][1..] == [];
  }

  /** Below a directory of the account, the account and the listing of that directory say the same. */
  lemma UnderTop(account: seq<Child>, name: string, p: Path, data: string)
    requires |p| > 1 && p[0] == name
    ensures IsLeaf(Lookup(Dir(account), p), data) <==> CopiesTree(Listing(account, name), [name], p, data)
  {
    assert p[..1] == [name];
    if Find(account, name).Some? { assert Lookup(Dir(account), p) == Lookup(Find(account, name).value, p[1..]); }
  }

  lemma {:induction false} ProjectTreesCopy(projects: seq<Child>, sid: string, p: Path, data: string)
    requires WellFormedList(projects)
    ensures Copy(p, data) in ProjectTreeSteps(projects, sid) <==>
            IsProjectFile(p, sid) && CopiesTree(projects, ["projects"], p, data)
  {
    if projects != [] {
      hide CopiesTree, CopiesChild, OneProjectSteps, IsProjectFile, WellFormedList, WellFormed;
      CopiesFirstOrRest(projects, ["projects"], p, data);
      OneProjectCopies(projects[0], sid, p, data);
      ProjectTreesCopy(projects[1..], sid, p, data);
    }
  }

  lemma OneProjectCopies(project: Child, sid: string, p: Path, data: string)
    requires WellFormed(project.tree)
    ensures Copy(p, data) in OneProjectSteps(project, sid) <==>
            IsProjectFile(p, sid) && CopiesChild(project, ["projects"], p, data)
  {
    hide TreeSteps;
    var rel := ["projects", project.name, sid];
    assert Beyond(rel, p) <==> IsProjectFile(p, sid) && p[1] == project.name;
    if IsProjectFile(p, sid) {
      assert p[..1] == ["projects"];
      assert p[1] == project.name ==> p[..3] == rel;
      assert p[2..][0] == sid && p[2..][1..] == p[3..];
      LookupBelow(project.tree, p[2..], data);
    }
    if project.tree.Dir? && DirAt(project.tree.children, sid).Some? {
      FoundIsWellFormed(project.tree.children, sid);
      TreeCopies(DirAt(project.tree.children, sid).value, rel, p, data);
    }
  }

  lemma StoreCopies(account: seq<Child>, store: string, sid: string, p: Path, data: string)
    requires WellFormedList(account)
    ensures Copy(p, data) in StoreSteps(account, store, sid) <==>
            IsStoreFile(p, store, sid) && IsLeaf(Lookup(Dir(account), p), data)
  {
    hide TreeSteps;
    if IsStoreFile(p, store, sid) {
      assert p[1..][0] == sid && p[1..][1..] == p[2..] && p[..2] == [store, sid];
      LookupBelow(Dir(account), p, data);
      if DirAt(account, store).Some? { LookupBelow(Dir(DirAt(account, store).value), p[1..], data); }
    }
    match DirAt(account, store)
    case None =>
    case Some(sessions) =>
      FoundIsWellFormed(account, store);
      if DirAt(sessions, sid).Some? {
        FoundIsWellFormed(sessions, sid);
        TreeCopies(DirAt(sessions, sid).value, [store, sid], p, data);
      }
  }

  lemma {:induction false} TodosCopy(todos: seq<Child>, sid: string, p: Path, data: string)
    requires WellFormedList(todos)
    ensures Copy(p, data) in TodoSteps(todos, sid) <==> IsTodoFile(p, sid) && CopiesTree(todos, ["todos"], p, data)
  {
    if todos != [] {
      hide CopiesTree, CopiesChild, OneTodoSteps, IsTodoFile, WellFormedList, WellFormed;
      CopiesFirstOrRest(todos, ["todos"], p, data);
      OneTodoCopies(todos[0], sid, p, data);
      TodosCopy(todos[1..], sid, p, data);
    }
  }

  lemma OneTodoCopies(todo: Child, sid: string, p: Path, data: string)
    ensures Copy(p, data) in OneTodoSteps(todo, sid) <==> IsTodoFile(p, sid) && CopiesChild(todo, ["todos"], p, data)
  {
    hide FileSteps, IsTodo;
    var rel := ["todos", todo.name];
    if todo.tree.Leaf? { FileStepsCopyOne(rel, todo.tree.data, p, data); }
    if |p| == 2 {
      assert p == [p[0], p[1]];
      assert p[..1] == [p[0]];
      assert p[2..] == [];
    }
  }

  lemma {:induction false} JsonlsCopy(projects: seq<Child>, sid: string, p: Path, data: string)
    requires WellFormedList(projects)
    ensures Copy(p, data) in JsonlSteps(Jsonls(projects, sid), sid) <==>
            IsJsonl(p, sid) && CopiesTree(projects, ["projects"], p, data)
  {
    if projects != [] {
      hide CopiesTree, CopiesChild, OneJsonl, IsJsonl, WellFormedList, WellFormed, FileSteps;
      CopiesFirstOrRest(projects, ["projects"], p, data);
      OneJsonlCopies(projects[0], sid, p, data);
      JsonlsCopy(projects[1..], sid, p, data);
      JsonlStepsSplit(projects[0], Jsonls(projects[1..], sid), sid);
    }
  }

  lemma JsonlStepsSplit(project: Child, found: seq<(string, string)>, sid: string)
    ensures JsonlSteps(OneJsonl(project, sid) + found, sid) ==
            JsonlSteps(OneJsonl(project, sid), sid) + JsonlSteps(found, sid)
  {
    var one := OneJsonl(project, sid);
    if one == [] {
      assert one + found == found;
    } else {
      assert (one + found)[0] == one[0] && (one + found)[1..] == found && one[1..] == [];
    }
  }

  lemma OneJsonlCopies(project: Child, sid: string, p: Path, data: string)
    ensures Copy(p, data) in JsonlSteps(OneJsonl(project, sid), sid) <==>
            IsJsonl(p, sid) && CopiesChild(project, ["projects"], p, data)
  {
    hide FileSteps;
    var one := OneJsonl(project, sid);
    if one != [] {
      assert one[1..] == [];
      FileStepsCopyOne(JsonlPath(project.name, sid), one[0].1, p, data);
    }
    if |p| == 3 {
      assert p == [p[0], p[1], p[2]];
      assert p[..1] == [p[0]];
      assert p[2..] == [p[2]];
      LookupFile(project.tree, p[2], data);
    }
  }

  lemma ListingIsWellFormed(account: seq<Child>, name: string)
    requires WellFormedList(account)
    ensures WellFormedList(Listing(account, name))
  {
    if Find(account, name).Some? { FoundIsWellFormed(account, name); }
  }

  /** The plan copies a file before the jsonls iff it is an ancillary file of the session in the source. */
  lemma AncillaryCovered(account: seq<Child>, sid: string, p: Path, data: string)
    requires WellFormedList(account)
    ensures Copy(p, data) in AncillarySteps(account, sid) <==>
            IsAncillary(p, sid) && IsLeaf(Lookup(Dir(account), p), data)
  {
    hide ProjectTreeSteps, StoreSteps, TodoSteps, IsLeaf, CopiesTree, Lookup, WellFormedList, Listing, IsTodo;
    ListingIsWellFormed(account, "projects");
    ListingIsWellFormed(account, "todos");
    ProjectTreesCopy(Listing(account, "projects"), sid, p, data);
    StoreCopies(account, "file-history", sid, p, data);
    StoreCopies(account, "session-env", sid, p, data);
    TodosCopy(Listing(account, "todos"), sid, p, data);
    if |p| > 1 {
      UnderTop(account, p[0], p, data);
    }
  }

  /** The last part of the plan copies a file iff it is a jsonl of the session in the source. */
  lemma JsonlsCovered(account: seq<Child>, sid: string, p: Path, data: string)
    requires WellFormedList(account)
    ensures Copy(p, data) in JsonlSteps(Jsonls(Listing(account, "projects"), sid), sid) <==>
            IsJsonl(p, sid) && IsLeaf(Lookup(Dir(account), p), data)
  {
    hide JsonlSteps, Jsonls, IsLeaf, CopiesTree, Lookup, WellFormedList, Listing;
    ListingIsWellFormed(account, "projects");
    JsonlsCopy(Listing(account, "projects"), sid, p, data);
    if |p| > 1 { UnderTop(account, p[0], p, data); }
  }

  // ----- The plan stays inside the family -----

  predicate InFamily(step: Step, sid: string) {
    match step
    case EnsureDir(p) => IsFamilyDir(p, sid)
    case Copy(p, _) => IsAncillary(p, sid) || IsJsonl(p, sid)
  }

  predicate Within(steps: seq<Step>, sid: string) {
    forall i :: 0 <= i < |steps| ==> InFamily(steps[i], sid)
  }

  /** Everything below such a directory belongs to the session. */
  predicate IsSessionDir(p: Path, sid: string) {
    || (|p| > 2 && p[0] == "projects" && p[2] == sid)
    || (|p| > 1 && (p[0] == "file-history" || p[0] == "session-env") && p[1] == sid)
  }

  lemma WithinConcat(a: seq<Step>, b: seq<Step>, sid: string)
    requires Within(a, sid) && Within(b, sid)
    ensures Within(a + b, sid)
  {
  }

  lemma {:induction false} DirStepsWithin(rel: Path, sid: string)
    requires rel == [] || IsFamilyDir(rel, sid)
    ensures Within(DirSteps(rel), sid)
    decreases |rel|
  {
    if rel != [] {
      DirStepsWithin(rel[..|rel| - 1], sid);
      hide IsFamilyDir;
      WithinConcat(DirSteps(rel[..|rel| - 1]), [EnsureDir(rel)], sid);
    }
  }

  lemma FileStepsWithin(rel: Path, data: string, sid: string)
    requires IsAncillary(rel, sid) || IsJsonl(rel, sid)
    ensures Within(FileSteps(rel, data), sid)
  {
    hide DirSteps, IsTodo;
    var dir := rel[..|rel| - 1];
    assert IsFamilyDir(dir, sid);
    DirStepsWithin(dir, sid);
    assert InFamily(Copy(rel, data), sid);
    hide IsFamilyDir, InFamily, IsAncillary, IsJsonl;
    WithinConcat(DirSteps(dir), [Copy(rel, data)], sid);
  }

  lemma {:induction false} TreeWithin(children: seq<Child>, rel: Path, sid: string)
    requires IsSessionDir(rel, sid)
    ensures Within(TreeSteps(children, rel), sid)
    decreases children, 1
  {
    hide DirSteps, ChildrenSteps;
    DirStepsWithin(rel, sid);
    ChildrenWithin(children, rel, sid);
    WithinConcat(DirSteps(rel), ChildrenSteps(children, rel), sid);
  }

  lemma {:induction false} ChildrenWithin(children: seq<Child>, rel: Path, sid: string)
    requires IsSessionDir(rel, sid)
    ensures Within(ChildrenSteps(children, rel), sid)
    decreases children, 0
  {
    if children != [] {
      hide ChildSteps, IsSessionDir, InFamily;
      ChildWithin(children[0], rel, sid);
      ChildrenWithin(children[1..], rel, sid);
      WithinConcat(ChildSteps(children[0], rel), ChildrenSteps(children[1..], rel), sid);
    }
  }

  lemma {:induction false} ChildWithin(c: Child, rel: Path, sid: string)
    requires IsSessionDir(rel, sid)
    ensures Within(ChildSteps(c, rel), sid)
    decreases c
  {
    hide FileSteps, TreeSteps, DirSteps, ChildrenSteps, InFamily;
    match c.tree
    case Leaf(data) => FileStepsWithin(rel + [c.name], data, sid);
    case Dir(cs) => TreeWithin(cs, rel + [c.name], sid);
    case Skipped =>
  }

  lemma {:induction false} ProjectTreesWithin(projects: seq<Child>, sid: string)
    ensures Within(ProjectTreeSteps(projects, sid), sid)
  {
    if projects != [] {
      hide TreeSteps, InFamily;
      ProjectTreesWithin(projects[1..], sid);
      var first := OneProjectSteps(projects[0], sid);
      if first != [] {
        TreeWithin(DirAt(projects[0].tree.children, sid).value, ["projects", projects[0].name, sid], sid);
      }
      WithinConcat(first, ProjectTreeSteps(projects[1..], sid), sid);
    }
  }

  lemma StoreWithin(account: seq<Child>, store: string, sid: string)
    requires store == "file-history" || store == "session-env"
    ensures Within(StoreSteps(account, store, sid), sid)
  {
    hide TreeSteps, InFamily;
    match DirAt(account, store)
    case None =>
    case Some(sessions) =>
      if DirAt(sessions, sid).Some? { TreeWithin(DirAt(sessions, sid).value, [store, sid], sid); }
  }

  lemma {:induction false} TodosWithin(todos: seq<Child>, sid: string)
    ensures Within(TodoSteps(todos, sid), sid)
  {
    if todos != [] {
      hide FileSteps, InFamily, IsTodo;
      TodosWithin(todos[1..], sid);
      if OneTodoSteps(todos[0], sid) != [] {
        FileStepsWithin(["todos", todos[0].name], todos[0].tree.data, sid);
      }
      WithinConcat(OneTodoSteps(todos[0], sid), TodoSteps(todos[1..], sid), sid);
    }
  }

  lemma {:induction false} JsonlsWithin(found: seq<(string, string)>, sid: string)
    ensures Within(JsonlSteps(found, sid), sid)
  {
    if found != [] {
      hide FileSteps, InFamily;
      JsonlsWithin(found[1..], sid);
      FileStepsWithin(JsonlPath(found[0].0, sid), found[0].1, sid);
      WithinConcat(FileSteps(JsonlPath(found[0].0, sid), found[0].1), JsonlSteps(found[1..], sid), sid);
    }
  }

  /** Whatever the source account holds, no step leaves the files and directories of the session. */
  lemma PlanWithin(account: seq<Child>, sid: string)
    ensures Within(Plan(account, sid), sid)
  {
    hide ProjectTreeSteps, StoreSteps, TodoSteps, JsonlSteps, Jsonls, Listing, Within;
    var a := ProjectTreeSteps(Listing(account, "projects"), sid);
    var b := StoreSteps(account, "file-history", sid);
    var c := StoreSteps(account, "session-env", sid);
    var d := TodoSteps(Listing(account, "todos"), sid);
    ProjectTreesWithin(Listing(account, "projects"), sid);
    StoreWithin(account, "file-history", sid);
    StoreWithin(account, "session-env", sid);
    TodosWithin(Listing(account, "todos"), sid);
    JsonlsWithin(Jsonls(Listing(account, "projects"), sid), sid);
    WithinConcat(a, b, sid);
    WithinConcat(a + b, c, sid);
    WithinConcat(a + b + c, d, sid);
    WithinConcat(a + b + c + d, JsonlSteps(Jsonls(Listing(account, "projects"), sid), sid), sid);
  }

  /** The glob <sid>-*.json, with the star spelled out. */
  lemma TodoGlob(name: string, sid: string)
    ensures IsTodo(name, sid) <==> exists star: string :: name == sid + "-" + star + ".json"
  {
    if IsTodo(name, sid) {
      var star := name[|sid| + 1..|name| - 5];
      assert name == name[..|sid| + 1] + star + name[|name| - 5..];
      assert name == sid + "-" + star + ".json";
    }
    forall star: string | name == sid + "-" + star + ".json" ensures IsTodo(name, sid) {
      assert name[..|sid| + 1] == sid + "-" && name[|name| - 5..] == ".json";
    }
  }

  /** The session family, path by path; credentials, settings and other sessions are not part of it. */
  lemma FamilyShapes(sid: string, project: string, star: string, rest: Path, other: string)
    requires rest != []
    ensures IsJsonl(["projects", project, sid + ".jsonl"], sid)
    ensures IsAncillary(["projects", project, sid] + rest, sid)
    ensures IsAncillary(["file-history", sid] + rest, sid) && IsAncillary(["session-env", sid] + rest, sid)
    ensures IsAncillary(["todos", sid + "-" + star + ".json"], sid)
    ensures !IsAncillary([".credentials.json"], sid) && !IsAncillary([".claude.json"], sid)
    ensures !IsAncillary(["sessions"] + rest, sid) && !IsJsonl(["sessions"] + rest, sid)
    ensures other != sid && |rest| == 1 ==>
              && !IsAncillary(["projects", project, other] + rest, sid)
              && !IsAncillary(["file-history", other] + rest, sid) && !IsAncillary(["session-env", other] + rest, sid)
  {
    TodoGlob(sid + "-" + star + ".json", sid);
    hide IsTodo;
  }
}
