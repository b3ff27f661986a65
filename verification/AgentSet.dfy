/**
ParseFilesWithCLIs, Set.Effective and Set.Collisions (pkg/agentspec/fileset.go): one runner's faults stay its
own.  Decoding teams.yaml and config.yaml is a parameter.
*/
module AgentSet {
  import opened Wrappers
  import opened GoText
  import opened Digraph
  import opened Sorting
  import opened AgentFileSet

  datatype AgentConfig = AgentConfig(kind: string, settings: string)

  datatype AgentError = BadConfig(node: string, id: string, reason: string) | MissingWorkflow(node: string, id: string)
                      | Collision(node: string, id: string)

  datatype Definition = Definition(id: string, node: string, config: AgentConfig, files: Files)

  datatype Decoder = Decoder(parseTeams: string -> Option<seq<string>>,
                             parseConfig: (string, string, seq<string>) -> Result<AgentConfig, string>)

  datatype GroupKey = GroupKey(node: string, id: string)

  type Groups = map<GroupKey, Files>

  predicate GroupLess(a: GroupKey, b: GroupKey) {
    StringLess(a.node, b.node) || (a.node == b.node && StringLess(a.id, b.id))
  }

  lemma GroupOrder()
    ensures StrictOrder(GroupLess)
  {
    hide StringLess;
    StringOrder();
  }

  /** The pattern ^[a-z0-9-_]+$ */
  predicate ValidNodeID(id: string) {
    id != "" && forall i :: 0 <= i < |id| ==>
      'a' <= id[i] <= 'z' || '0' <= id[i] <= '9' || id[i] == '-' || id[i] == '_'
  }

  // ----- Grouping -----

  /** The file rel of an agent, as a key of the file map. */
  ghost predicate Has(files: Files, gk: GroupKey, rel: string) {
    ValidKey(FileKey(gk.node, gk.id, rel)) && JoinKey(FileKey(gk.node, gk.id, rel)) in files
  }

  /** groups holds every file of every agent once, under its agent and its path, and nothing else. */
  ghost predicate Grouped(files: Files, groups: Groups) {
    && (forall gk, rel :: (gk in groups && rel in groups[gk]) <==> Has(files, gk, rel))
    && (forall gk, rel :: Has(files, gk, rel) ==> groups[gk][rel] == files[JoinKey(FileKey(gk.node, gk.id, rel))])
    && (forall gk <- groups :: groups[gk] != map[])
  }

  function GroupAdd(groups: Groups, k: FileKey, data: string): Groups {
    var gk := GroupKey(k.node, k.id);
    groups[gk := (if gk in groups then groups[gk] else map[])[k.rel := data]]
  }

  lemma GroupedAdd(files: Files, groups: Groups, key: string, data: string, k: FileKey)
    requires Grouped(files, groups) && SplitAgentKey(key) == Some(k) && key !in files
    ensures Grouped(files[key := data], GroupAdd(groups, k, data))
  {
    hide JoinKey, SplitAgentKey, ValidKey;
    var files', groups' := files[key := data], GroupAdd(groups, k, data);
    SplitInvertsJoin(key, k);
    forall gk, rel
      ensures (gk in groups' && rel in groups'[gk]) <==> Has(files', gk, rel)
      ensures Has(files', gk, rel) ==> groups'[gk][rel] == files'[JoinKey(FileKey(gk.node, gk.id, rel))] {
      SplitInvertsJoin(key, FileKey(gk.node, gk.id, rel));
      assert Has(files, gk, rel) <==> gk in groups && rel in groups[gk];
    }
    forall gk <- groups' ensures groups'[gk] != map[] {
      if gk == GroupKey(k.node, k.id) { assert k.rel in groups'[gk]; }
    }
  }

  lemma GroupedSkip(files: Files, groups: Groups, key: string, data: string)
    requires Grouped(files, groups) && SplitAgentKey(key) == None && key !in files
    ensures Grouped(files[key := data], groups)
  {
    hide JoinKey, SplitAgentKey, ValidKey;
    forall gk, rel
      ensures Has(files[key := data], gk, rel) <==> Has(files, gk, rel)
      ensures Has(files, gk, rel) ==> JoinKey(FileKey(gk.node, gk.id, rel)) != key {
      SplitInvertsJoin(key, FileKey(gk.node, gk.id, rel));
    }
  }

  /** Grouping depends on the files only, not on the order in which Go visits the map. */
  lemma GroupedUnique(files: Files, a: Groups, b: Groups)
    requires Grouped(files, a) && Grouped(files, b)
    ensures a == b
  {
    hide Has;
    forall gk ensures gk in a <==> gk in b {
      if gk in a { var rel :| rel in a[gk]; assert Has(files, gk, rel); }
      if gk in b { var rel :| rel in b[gk]; assert Has(files, gk, rel); }
    }
    forall gk <- a ensures a[gk] == b[gk] {
      forall rel ensures rel in a[gk] <==> rel in b[gk] {
        assert rel in a[gk] <==> Has(files, gk, rel);
        assert rel in b[gk] <==> Has(files, gk, rel);
      }
    }
  }

  /** Every file map has a grouping, also one with files that are refused later. */
  lemma {:induction false} GroupsExist(files: Files)
    ensures exists groups :: Grouped(files, groups)
    decreases |files|
  {
    hide Grouped, SplitAgentKey, GroupAdd;
    if files == map[] {
      GroupedNothing();
      assert Grouped(files, map[]);
    } else {
      var key :| key in files;
      var rest := files - {key};
      assert rest[key := files[key]] == files;
      GroupsExist(rest);
      var groups :| Grouped(rest, groups);
      if SplitAgentKey(key).Some? {
        GroupedAdd(rest, groups, key, files[key], SplitAgentKey(key).value);
      } else {
        GroupedSkip(rest, groups, key, files[key]);
      }
    }
  }

  ghost function GroupsOf(files: Files): (groups: Groups)
    ensures Grouped(files, groups)
  {
    GroupsExist(files);
    var groups :| Grouped(files, groups);
    groups
  }

  /** A file of a runner whose id is not a valid node id. */
  predicate BadNodeKey(key: string) {
    var k := SplitAgentKey(key);
    k.Some? && k.value.node != "" && !ValidNodeID(k.value.node)
  }

  /** Node ids are checked while grouping; other keys are ignored. */
  method GroupFiles(files: Files) returns (groups: Groups, badKey: Option<string>)
    ensures badKey.None? ==> Grouped(files, groups) && forall gk <- groups :: gk.node == "" || ValidNodeID(gk.node)
    ensures badKey.Some? ==> badKey.value in files && BadNodeKey(badKey.value)
  {
    hide *;
    groups := map[];
    var left := files.Keys;
    ghost var done: Files := map[];
    GroupedNothing();
    while left != {}
      invariant left <= files.Keys && done.Keys == files.Keys - left
      invariant forall k <- done :: done[k] == files[k]
      invariant Grouped(done, groups)
      invariant forall gk <- groups :: gk.node == "" || ValidNodeID(gk.node)
    {
      var key :| key in left;
      left := left - {key};
      var k := SplitAgentKey(key);
      if k.Some? {
        if k.value.node != "" && !ValidNodeID(k.value.node) {
          BadNodeKeyIs(key);
          return groups, Some(key);
        }
        GroupedAdd(done, groups, key, files[key], k.value);
        GroupAddKeys(groups, k.value, files[key]);
        groups := GroupAdd(groups, k.value, files[key]);
      } else {
        GroupedSkip(done, groups, key, files[key]);
      }
      done := done[key := files[key]];
    }
    assert done == files;
    badKey := None;
  }

  lemma BadNodeKeyIs(key: string)
    ensures SplitAgentKey(key).Some? ==>
              (BadNodeKey(key) <==> SplitAgentKey(key).value.node != "" && !ValidNodeID(SplitAgentKey(key).value.node))
  {
  }

  lemma GroupedNothing()
    ensures Grouped(map[], map[])
  {
  }

  lemma GroupAddKeys(groups: Groups, k: FileKey, data: string)
    ensures GroupAdd(groups, k, data).Keys == groups.Keys + {GroupKey(k.node, k.id)}
  {
  }

  // ----- Parsing the groups -----

  /** None for a directory without config.yaml, which is not an agent. */
  function ParseGroup(p: Decoder, teams: seq<string>, gk: GroupKey, files: Files)
    : Option<Result<AgentConfig, AgentError>>
  {
    if "config.yaml" !in files then None
    else
      match p.parseConfig(gk.id, files["config.yaml"], teams)
      case Failure(reason) => Some(Failure(BadConfig(gk.node, gk.id, reason)))
      case Success(cfg) =>
        if cfg.kind == "workflow" && "workflow.yaml" !in files
        then Some(Failure(MissingWorkflow(gk.node, gk.id)))
        else Some(Success(cfg))
  }

  function ParseAt(p: Decoder, teams: seq<string>, groups: Groups, gk: GroupKey)
    : Option<Result<AgentConfig, AgentError>>
  {
    if gk in groups then ParseGroup(p, teams, gk, groups[gk]) else None
  }

  predicate Parses(r: Option<Result<AgentConfig, AgentError>>) {
    r.Some? && r.value.Success?
  }

  predicate Fails(r: Option<Result<AgentConfig, AgentError>>) {
    r.Some? && r.value.Failure?
  }

  /** The agents of one node among the given group keys. */
  function DefsIn(p: Decoder, teams: seq<string>, groups: Groups, keys: seq<GroupKey>, node: string)
    : map<string, Definition>
  {
    if keys == [] then map[]
    else
      var gk := keys[|keys| - 1];
      var before := DefsIn(p, teams, groups, keys[..|keys| - 1], node);
      var r := ParseAt(p, teams, groups, gk);
      if gk.node == node && Parses(r) then before[gk.id := Definition(gk.id, node, r.value.value, groups[gk])]
      else before
  }

  /** The errors of one node among the given group keys, in their order. */
  function ErrsIn(p: Decoder, teams: seq<string>, groups: Groups, keys: seq<GroupKey>, node: string)
    : seq<AgentError>
  {
    if keys == [] then []
    else
      var gk := keys[|keys| - 1];
      var r := ParseAt(p, teams, groups, gk);
      ErrsIn(p, teams, groups, keys[..|keys| - 1], node) + if gk.node == node && Fails(r) then [r.value.error] else []
  }

  datatype FileSet = FileSet(teams: seq<string>, global: map<string, Definition>,
                             runners: map<string, map<string, Definition>>,
                             runnerErrs: map<string, seq<AgentError>>)
  {
    function RunnerDefs(node: string): map<string, Definition> {
      if node in runners then runners[node] else map[]
    }

    function ErrorsOf(node: string): seq<AgentError> {
      if node in runnerErrs then runnerErrs[node] else []
    }
  }

  /** The set holds, for every node, exactly the agents and the errors found under the given keys. */
  ghost predicate Collected(p: Decoder, teams: seq<string>, groups: Groups, keys: seq<GroupKey>, s: FileSet) {
    && s.teams == teams
    && s.global == DefsIn(p, teams, groups, keys, "")
    && (forall n :: n != "" ==> s.RunnerDefs(n) == DefsIn(p, teams, groups, keys, n))
    && (forall n :: n != "" ==> s.ErrorsOf(n) == ErrsIn(p, teams, groups, keys, n))
    && s.ErrorsOf("") == [] && s.RunnerDefs("") == map[]
  }

  function Record(s: FileSet, gk: GroupKey, r: Result<AgentConfig, AgentError>, files: Files): FileSet {
    match r
    case Failure(e) => s.(runnerErrs := s.runnerErrs[gk.node := s.ErrorsOf(gk.node) + [e]])
    case Success(cfg) =>
      var def := Definition(gk.id, gk.node, cfg, files);
      if gk.node == "" then s.(global := s.global[gk.id := def])
      else s.(runners := s.runners[gk.node := s.RunnerDefs(gk.node)[gk.id := def]])
  }

  lemma NextDefs(p: Decoder, teams: seq<string>, groups: Groups, keys: seq<GroupKey>, i: nat, node: string)
    requires i < |keys| && keys[i] in groups
    ensures var r := ParseAt(p, teams, groups, keys[i]);
            DefsIn(p, teams, groups, keys[..i + 1], node) ==
            if keys[i].node == node && Parses(r)
            then DefsIn(p, teams, groups, keys[..i], node)
                   [keys[i].id := Definition(keys[i].id, node, r.value.value, groups[keys[i]])]
            else DefsIn(p, teams, groups, keys[..i], node)
  {
    hide ParseAt;
    assert keys[..i + 1][..i] == keys[..i];
  }

  lemma NextErrs(p: Decoder, teams: seq<string>, groups: Groups, keys: seq<GroupKey>, i: nat, node: string)
    requires i < |keys|
    ensures var r := ParseAt(p, teams, groups, keys[i]);
            ErrsIn(p, teams, groups, keys[..i + 1], node) ==
            ErrsIn(p, teams, groups, keys[..i], node) + if keys[i].node == node && Fails(r) then [r.value.error] else []
  {
    hide ParseAt;
    assert keys[..i + 1][..i] == keys[..i];
  }

  lemma CollectNext(p: Decoder, teams: seq<string>, groups: Groups, keys: seq<GroupKey>, i: nat, s: FileSet)
    requires i < |keys| && keys[i] in groups && Collected(p, teams, groups, keys[..i], s)
    requires !(keys[i].node == "" && Fails(ParseAt(p, teams, groups, keys[i])))
    ensures var r := ParseAt(p, teams, groups, keys[i]);
            Collected(p, teams, groups, keys[..i + 1], if r.None? then s else Record(s, keys[i], r.value, groups[keys[i]]))
  {
    hide ParseAt, DefsIn, ErrsIn;
    var r := ParseAt(p, teams, groups, keys[i]);
    var s' := if r.None? then s else Record(s, keys[i], r.value, groups[keys[i]]);
    NextDefs(p, teams, groups, keys, i, "");
    forall n | n != ""
      ensures s'.RunnerDefs(n) == DefsIn(p, teams, groups, keys[..i + 1], n)
      ensures s'.ErrorsOf(n) == ErrsIn(p, teams, groups, keys[..i + 1], n) {
      assert s.RunnerDefs(n) == DefsIn(p, teams, groups, keys[..i], n);
      assert s.ErrorsOf(n) == ErrsIn(p, teams, groups, keys[..i], n);
      NextDefs(p, teams, groups, keys, i, n);
      NextErrs(p, teams, groups, keys, i, n);
    }
  }

  /** A failing agent of the global scope. */
  predicate FailsGlobally(p: Decoder, teams: seq<string>, groups: Groups, gk: GroupKey) {
    gk.node == "" && Fails(ParseAt(p, teams, groups, gk))
  }

  /** The first failing global agent among the keys, and its error. */
  ghost predicate FirstFailure(p: Decoder, teams: seq<string>, groups: Groups, keys: seq<GroupKey>, e: AgentError) {
    exists i :: 0 <= i < |keys| && FailsGlobally(p, teams, groups, keys[i])
                && ParseAt(p, teams, groups, keys[i]) == Some(Failure(e))
                && forall j :: 0 <= j < i ==> !FailsGlobally(p, teams, groups, keys[j])
  }

  lemma FirstFailureIs(p: Decoder, teams: seq<string>, groups: Groups, keys: seq<GroupKey>, i: nat, e: AgentError)
    requires i < |keys| && keys[i].node == "" && ParseAt(p, teams, groups, keys[i]) == Some(Failure(e))
    requires forall j :: 0 <= j < i ==> !(keys[j].node == "" && Fails(ParseAt(p, teams, groups, keys[j])))
    ensures FirstFailure(p, teams, groups, keys, e)
  {
    hide ParseAt;
    assert FailsGlobally(p, teams, groups, keys[i]);
  }

  /** The loop over the sorted groups: the first failing global agent aborts, a failing runner agent does not. */
  method CollectAgents(p: Decoder, teams: seq<string>, groups: Groups) returns (s: FileSet, err: Option<AgentError>)
    ensures err.Some? <==> exists gk <- groups :: gk.node == "" && Fails(ParseAt(p, teams, groups, gk))
    ensures err.None? ==> Collected(p, teams, groups, SortedGroups(groups), s)
    ensures err.Some? ==> FirstFailure(p, teams, groups, SortedGroups(groups), err.value)
  {
    hide *;
    GroupOrder();
    var keys := SortKeys(GroupLess, groups.Keys);
    SortedGroupsIs(groups);
    s := FileSet(teams, map[], map[], map[]);
    CollectNothing(p, teams, groups);
    assert keys[..0] == [];
    for i := 0 to |keys|
      invariant Collected(p, teams, groups, keys[..i], s)
      invariant forall j :: 0 <= j < i ==> !(keys[j].node == "" && Fails(ParseAt(p, teams, groups, keys[j])))
    {
      KeyInGroups(groups, keys, i);
      var gk := keys[i];
      var r := ParseAt(p, teams, groups, gk);
      FailsMeans(r);
      if r.Some? && r.value.Failure? && gk.node == "" {
        FirstFailureIs(p, teams, groups, keys, i, r.value.error);
        return s, Some(r.value.error);
      }
      CollectNext(p, teams, groups, keys, i, s);
      if r.Some? {
        s := Record(s, gk, r.value, groups[gk]);
      }
    }
    assert keys[..|keys|] == keys;
    EveryGroupSeen(groups, keys);
    err := None;
  }

  ghost function SortedGroups(groups: Groups): seq<GroupKey> {
    GroupOrder();
    SortedList(GroupLess, groups.Keys)
  }

  lemma SortedGroupsIs(groups: Groups)
    requires StrictOrder(GroupLess)
    ensures SortedGroups(groups) == SortedList(GroupLess, groups.Keys)
  {
  }

  lemma KeyInGroups(groups: Groups, keys: seq<GroupKey>, i: nat)
    requires keys == SortedGroups(groups) && i < |keys|
    ensures keys[i] in groups
  {
    assert keys[i] in Elems(keys);
  }

  lemma EveryGroupSeen(groups: Groups, keys: seq<GroupKey>)
    requires keys == SortedGroups(groups)
    ensures forall gk <- groups :: exists j :: 0 <= j < |keys| && keys[j] == gk
  {
    forall gk <- groups ensures exists j :: 0 <= j < |keys| && keys[j] == gk {
      assert gk in Elems(keys);
    }
  }

  lemma CollectNothing(p: Decoder, teams: seq<string>, groups: Groups)
    ensures Collected(p, teams, groups, [], FileSet(teams, map[], map[], map[]))
  {
  }

  lemma FailsMeans(r: Option<Result<AgentConfig, AgentError>>)
    ensures Fails(r) <==> r.Some? && r.value.Failure?
  {
  }

  // ----- ParseFilesWithCLIs -----

  datatype ParseError = BadTeams | BadNode(key: string) | BadAgent(error: AgentError)

  predicate TeamsOK(p: Decoder, files: Files) {
    TEAMS_KEY !in files || p.parseTeams(files[TEAMS_KEY]).Some?
  }

  function TeamsOf(p: Decoder, files: Files): seq<string> {
    if TEAMS_KEY !in files then []
    else match p.parseTeams(files[TEAMS_KEY]) case Some(teams) => teams case None => []
  }

  /** No runner has an invalid id, and no global agent fails. */
  ghost predicate GroupsOK(p: Decoder, teams: seq<string>, groups: Groups) {
    && (forall gk <- groups :: gk.node == "" || ValidNodeID(gk.node))
    && (forall gk <- groups :: !(gk.node == "" && Fails(ParseAt(p, teams, groups, gk))))
  }

  /** s is what a successful parse of the files returns. */
  ghost predicate Parsed(p: Decoder, files: Files, s: FileSet) {
    Collected(p, TeamsOf(p, files), GroupsOf(files), SortedGroups(GroupsOf(files)), s)
  }

  /** The error is true of the files: the teams come first, then the runner ids, then the first failing global agent. */
  ghost predicate Explains(p: Decoder, files: Files, e: ParseError) {
    match e
    case BadTeams => !TeamsOK(p, files)
    case BadNode(key) => TeamsOK(p, files) && key in files && BadNodeKey(key)
    case BadAgent(error) =>
      var groups := GroupsOf(files);
      && TeamsOK(p, files)
      && (forall gk <- groups :: gk.node == "" || ValidNodeID(gk.node))
      && FirstFailure(p, TeamsOf(p, files), groups, SortedGroups(groups), error)
  }

  /** Parsing succeeds if and only if the teams, the node ids and the global agents are in order; the result is
      then the agents and errors of each node, whatever the order in which the file map is visited. */
  method ParseFiles(p: Decoder, files: Files) returns (r: Result<FileSet, ParseError>)
    ensures r.Success? <==> TeamsOK(p, files) && GroupsOK(p, TeamsOf(p, files), GroupsOf(files))
    ensures r.Success? ==> Parsed(p, files, r.value)
    ensures r.Failure? ==> Explains(p, files, r.error)
  {
    hide Grouped, GroupsOf, Collected, SortedGroups, ParseAt, Has, SplitAgentKey, JoinKey, FirstFailure, BadNodeKey;
    ghost var groups := GroupsOf(files);
    var teams: seq<string> := [];
    if TEAMS_KEY in files {
      var t := p.parseTeams(files[TEAMS_KEY]);
      if t.None? { return Failure(BadTeams); }
      teams := t.value;
    }
    var parsed, badKey := GroupFiles(files);
    if badKey.Some? {
      BadKeyMeansBadGroup(files, groups, badKey.value);
      return Failure(BadNode(badKey.value));
    }
    GroupedUnique(files, parsed, groups);
    var s, err := CollectAgents(p, teams, parsed);
    if err.Some? { return Failure(BadAgent(err.value)); }
    r := Success(s);
  }

  lemma BadKeyMeansBadGroup(files: Files, groups: Groups, key: string)
    requires Grouped(files, groups) && key in files && BadNodeKey(key)
    ensures exists gk <- groups :: !(gk.node == "" || ValidNodeID(gk.node))
  {
    hide SplitAgentKey, JoinKey, ValidKey;
    var k := SplitAgentKey(key).value;
    SplitInvertsJoin(key, k);
    assert Has(files, GroupKey(k.node, k.id), k.rel);
    assert GroupKey(k.node, k.id) in groups;
  }

  // ----- What parsing decides, file by file -----

  /** An agent's own file. */
  ghost predicate HasFile(files: Files, node: string, id: string, rel: string) {
    ValidKey(FileKey(node, id, rel)) && JoinKey(FileKey(node, id, rel)) in files
  }

  function FileAt(files: Files, node: string, id: string, rel: string): string
    requires JoinKey(FileKey(node, id, rel)) in files
  {
    files[JoinKey(FileKey(node, id, rel))]
  }

  /** The agent is complete: it has a config.yaml that decodes to cfg, and a workflow also has a workflow.yaml. */
  ghost predicate Complete(p: Decoder, teams: seq<string>, files: Files, node: string, id: string, cfg: AgentConfig) {
    && HasFile(files, node, id, "config.yaml")
    && p.parseConfig(id, FileAt(files, node, id, "config.yaml"), teams) == Success(cfg)
    && (cfg.kind == "workflow" ==> HasFile(files, node, id, "workflow.yaml"))
  }

  /** What is wrong with an agent: a config.yaml that does not decode, or a workflow without workflow.yaml. */
  ghost predicate Faulty(p: Decoder, teams: seq<string>, files: Files, node: string, id: string, e: AgentError) {
    && HasFile(files, node, id, "config.yaml")
    && match p.parseConfig(id, FileAt(files, node, id, "config.yaml"), teams)
       case Failure(reason) => e == BadConfig(node, id, reason)
       case Success(cfg) =>
         cfg.kind == "workflow" && !HasFile(files, node, id, "workflow.yaml") && e == MissingWorkflow(node, id)
  }

  /** Where the files are: agents/<id>/<file>, and runners/<node>/agents/<id>/<file>. */
  lemma KeysOfFiles(node: string, id: string, rel: string)
    ensures JoinKey(FileKey("", id, rel)) == "agents/" + (id + "/" + rel)
    ensures node != "" ==> JoinKey(FileKey(node, id, rel)) == "runners/" + (node + "/" + ("agents/" + (id + "/" + rel)))
  {
    hide *;
    JoinKeyIs(node, id, rel);
    JoinKeyIs("", id, rel);
    assert "agents" + "/" + (id + "/" + rel) == "agents/" + (id + "/" + rel);
  }

  lemma JoinKeyIs(node: string, id: string, rel: string)
    ensures JoinKey(FileKey("", id, rel)) == "agents/" + (id + "/" + rel)
    ensures node != "" ==>
              JoinKey(FileKey(node, id, rel)) == "runners/" + (node + "/" + ("agents" + "/" + (id + "/" + rel)))
  {
  }

  /** Parsing one group, in terms of the files. */
  lemma ParseAtMeans(p: Decoder, teams: seq<string>, files: Files, groups: Groups, node: string, id: string)
    requires Grouped(files, groups)
    ensures var r := ParseAt(p, teams, groups, GroupKey(node, id));
      && (forall cfg :: r == Some(Success(cfg)) <==> Complete(p, teams, files, node, id, cfg))
      && (forall e :: r == Some(Failure(e)) <==> Faulty(p, teams, files, node, id, e))
  {
    hide JoinKey, ValidKey;
    var gk := GroupKey(node, id);
    assert Has(files, gk, "config.yaml") <==> gk in groups && "config.yaml" in groups[gk];
    assert Has(files, gk, "workflow.yaml") <==> gk in groups && "workflow.yaml" in groups[gk];
  }

  lemma {:induction false} DefsInHas(p: Decoder, teams: seq<string>, groups: Groups, keys: seq<GroupKey>, node: string,
                                     id: string)
    ensures id in DefsIn(p, teams, groups, keys, node) <==>
            GroupKey(node, id) in keys && Parses(ParseAt(p, teams, groups, GroupKey(node, id)))
    ensures id in DefsIn(p, teams, groups, keys, node) ==>
              DefsIn(p, teams, groups, keys, node)[id] ==
              Definition(id, node, ParseAt(p, teams, groups, GroupKey(node, id)).value.value, groups[GroupKey(node, id)])
    decreases |keys|
  {
    if keys != [] {
      hide ParseGroup;
      var most, gk := keys[..|keys| - 1], keys[|keys| - 1];
      DefsInHas(p, teams, groups, most, node, id);
      assert keys == most + [gk];
      assert GroupKey(node, id) == gk <==> gk.node == node && gk.id == id;
    }
  }

  /** The agent an error is about. */
  function About(e: AgentError): GroupKey {
    GroupKey(e.node, e.id)
  }

  lemma ErrorsName(p: Decoder, teams: seq<string>, groups: Groups, gk: GroupKey)
    ensures Fails(ParseAt(p, teams, groups, gk)) ==> About(ParseAt(p, teams, groups, gk).value.error) == gk
  {
  }

  lemma {:induction false} ErrsInHas(p: Decoder, teams: seq<string>, groups: Groups, keys: seq<GroupKey>, node: string,
                                     e: AgentError)
    ensures e in ErrsIn(p, teams, groups, keys, node) <==>
            e.node == node && About(e) in keys && ParseAt(p, teams, groups, About(e)) == Some(Failure(e))
    decreases |keys|
  {
    if keys != [] {
      hide ParseAt;
      var most, gk := keys[..|keys| - 1], keys[|keys| - 1];
      ErrsInHas(p, teams, groups, most, node, e);
      ErrorsName(p, teams, groups, gk);
      assert keys == most + [gk];
    }
  }

  lemma InSortedGroups(groups: Groups, gk: GroupKey)
    ensures gk in SortedGroups(groups) <==> gk in groups
  {
    assert gk in SortedGroups(groups) <==> gk in Elems(SortedGroups(groups));
  }

  lemma ParsedNeedsGroup(p: Decoder, teams: seq<string>, groups: Groups, gk: GroupKey)
    ensures ParseAt(p, teams, groups, gk).Some? ==> gk in groups
  {
  }

  function DefsOf(s: FileSet, node: string): map<string, Definition> {
    if node == "" then s.global else s.RunnerDefs(node)
  }

  /** What a successful parse holds for any node, the global scope included: exactly the complete agents, each with its
      decoded config and its own files. */
  lemma ParsedAgents(p: Decoder, files: Files, s: FileSet, node: string, id: string, cfg: AgentConfig)
    requires Parsed(p, files, s)
    ensures id in DefsOf(s, node) && DefsOf(s, node)[id].config == cfg <==> Complete(p, s.teams, files, node, id, cfg)
    ensures id in DefsOf(s, node) ==> DefsOf(s, node)[id].id == id && DefsOf(s, node)[id].node == node
    ensures id in DefsOf(s, node) ==> forall rel :: rel in DefsOf(s, node)[id].files <==> HasFile(files, node, id, rel)
    ensures id in DefsOf(s, node) ==> forall rel :: HasFile(files, node, id, rel) ==>
              DefsOf(s, node)[id].files[rel] == FileAt(files, node, id, rel)
  {
    hide ParseAt, DefsIn, ErrsIn, SortedGroups, TeamsOf, JoinKey, ValidKey, GroupsOf, Complete;
    var groups, gk := GroupsOf(files), GroupKey(node, id);
    var keys := SortedGroups(groups);
    DefsInHas(p, s.teams, groups, keys, node, id);
    InSortedGroups(groups, gk);
    ParsedNeedsGroup(p, s.teams, groups, gk);
    ParseAtMeans(p, s.teams, files, groups, node, id);
    assert DefsOf(s, node) == DefsIn(p, s.teams, groups, keys, node);
    assert forall rel :: Has(files, gk, rel) <==> HasFile(files, node, id, rel);
  }

  /** An agent with a config.yaml is either complete or faulty, never both. */
  lemma CompleteOrFaulty(p: Decoder, teams: seq<string>, files: Files, node: string, id: string)
    ensures HasFile(files, node, id, "config.yaml") <==>
            (exists cfg :: Complete(p, teams, files, node, id, cfg)) || (exists e :: Faulty(p, teams, files, node, id, e))
    ensures !((exists cfg :: Complete(p, teams, files, node, id, cfg)) && (exists e :: Faulty(p, teams, files, node, id, e)))
  {
    hide JoinKey, ValidKey;
    if HasFile(files, node, id, "config.yaml") {
      match p.parseConfig(id, FileAt(files, node, id, "config.yaml"), teams)
      case Failure(reason) => assert Faulty(p, teams, files, node, id, BadConfig(node, id, reason));
      case Success(cfg) =>
        assert Complete(p, teams, files, node, id, cfg) || Faulty(p, teams, files, node, id, MissingWorkflow(node, id));
    }
  }

  /** After a successful parse the global agents are exactly those with a config.yaml. */
  lemma GlobalAgents(p: Decoder, files: Files, s: FileSet, id: string)
    requires Parsed(p, files, s) && forall e :: !Faulty(p, s.teams, files, "", id, e)
    ensures id in s.global <==> HasFile(files, "", id, "config.yaml")
  {
    hide Parsed, Complete, Faulty, HasFile;
    CompleteOrFaulty(p, s.teams, files, "", id);
    if id in s.global {
      ParsedAgents(p, files, s, "", id, s.global[id].config);
    } else if HasFile(files, "", id, "config.yaml") {
      var cfg :| Complete(p, s.teams, files, "", id, cfg);
      ParsedAgents(p, files, s, "", id, cfg);
    }
  }

  /** And its errors: for every runner exactly what is wrong with its agents. */
  lemma ParsedErrors(p: Decoder, files: Files, s: FileSet, node: string, e: AgentError)
    requires Parsed(p, files, s) && node != ""
    ensures e in s.ErrorsOf(node) <==> e.node == node && Faulty(p, s.teams, files, node, e.id, e)
  {
    hide ParseAt, DefsIn, ErrsIn, SortedGroups, TeamsOf, GroupsOf, Faulty;
    var groups := GroupsOf(files);
    ErrsInHas(p, s.teams, groups, SortedGroups(groups), node, e);
    InSortedGroups(groups, About(e));
    ParsedNeedsGroup(p, s.teams, groups, About(e));
    ParseAtMeans(p, s.teams, files, groups, e.node, e.id);
  }

  /** The teams are those of agents/teams.yaml. */
  lemma ParsedTeams(p: Decoder, files: Files, s: FileSet)
    requires Parsed(p, files, s) && TeamsOK(p, files)
    ensures "agents/teams.yaml" in files ==> p.parseTeams(files["agents/teams.yaml"]) == Some(s.teams)
    ensures "agents/teams.yaml" !in files ==> s.teams == []
  {
    hide DefsIn, ErrsIn, SortedGroups, GroupsOf;
  }

  /** When parsing succeeds, in terms of the files: the teams decode, no key names an invalid runner id, and nothing is
      wrong with any global agent. */
  lemma ParsesExactly(p: Decoder, files: Files)
    ensures GroupsOK(p, TeamsOf(p, files), GroupsOf(files)) <==>
            && (forall key <- files :: !BadNodeKey(key))
            && (forall id, e :: !Faulty(p, TeamsOf(p, files), files, "", id, e))
    ensures TeamsOK(p, files) <==>
            ("agents/teams.yaml" in files ==> p.parseTeams(files["agents/teams.yaml"]).Some?)
  {
    hide ParseAt, TeamsOf, GroupsOf, Faulty, Grouped, BadNodeKey, ValidNodeID, Fails;
    NodeIDsOK(files, GroupsOf(files));
    GlobalsOK(p, TeamsOf(p, files), files, GroupsOf(files));
  }

  lemma GlobalsOK(p: Decoder, teams: seq<string>, files: Files, groups: Groups)
    requires Grouped(files, groups)
    ensures (forall gk <- groups :: !(gk.node == "" && Fails(ParseAt(p, teams, groups, gk)))) <==>
            (forall id, e :: !Faulty(p, teams, files, "", id, e))
  {
    hide ParseAt, Faulty, Grouped;
    if forall id, e :: !Faulty(p, teams, files, "", id, e) {
      forall gk <- groups ensures !(gk.node == "" && Fails(ParseAt(p, teams, groups, gk))) {
        ParseAtMeans(p, teams, files, groups, "", gk.id);
        assert gk.node == "" ==> gk == GroupKey("", gk.id);
      }
    }
    if forall gk <- groups :: !(gk.node == "" && Fails(ParseAt(p, teams, groups, gk))) {
      forall id, e ensures !Faulty(p, teams, files, "", id, e) {
        ParseAtMeans(p, teams, files, groups, "", id);
        ParsedNeedsGroup(p, teams, groups, GroupKey("", id));
      }
    }
  }

  lemma NodeIDsOK(files: Files, groups: Groups)
    requires Grouped(files, groups)
    ensures (forall gk <- groups :: gk.node == "" || ValidNodeID(gk.node)) <==> (forall key <- files :: !BadNodeKey(key))
  {
    hide ValidNodeID, JoinKey, ValidKey, SplitAgentKey;
    forall key <- files ensures BadNodeKey(key) ==> exists gk <- groups :: !(gk.node == "" || ValidNodeID(gk.node)) {
      if BadNodeKey(key) { BadKeyMeansBadGroup(files, groups, key); }
    }
    forall gk <- groups ensures !(gk.node == "" || ValidNodeID(gk.node)) ==> exists key <- files :: BadNodeKey(key) {
      var rel :| rel in groups[gk];
      assert Has(files, gk, rel);
      var k := FileKey(gk.node, gk.id, rel);
      SplitInvertsJoin(JoinKey(k), k);
      assert JoinKey(k) in files;
      assert !(gk.node == "" || ValidNodeID(gk.node)) ==> BadNodeKey(JoinKey(k));
    }
  }

  // ----- Non-interference -----

  /** The prefix of everything that belongs to one runner. */
  function RunnerPrefix(node: string): string {
    RUNNERS_PREFIX + Slash(node, "")
  }

  /** The two file maps differ at most below one runner's directory. */
  ghost predicate SameOutside(f: Files, g: Files, node: string) {
    forall key :: !HasPrefix(key, RunnerPrefix(node)) ==> (key in f <==> key in g) && (key in f ==> f[key] == g[key])
  }

  /** A file below a runner's directory belongs to that runner and no other. */
  lemma BelowRunner(k: FileKey, node: string)
    requires ValidKey(k) && '/' !in node && HasPrefix(JoinKey(k), RunnerPrefix(node))
    ensures k.node == node
  {
    hide HasPrefix;
    if k.node == "" {
      GlobalNotBelow(Slash(k.id, k.rel), Slash(node, ""));
    } else {
      var rest := Slash("agents", Slash(k.id, k.rel));
      PrefixOfRest(Slash(k.node, rest), Slash(node, ""));
      SameNode(k.node, rest, node);
    }
  }

  lemma GlobalNotBelow(rest: string, tail: string)
    ensures !HasPrefix(GLOBAL_PREFIX + rest, RUNNERS_PREFIX + tail)
  {
    var s, t := GLOBAL_PREFIX + rest, RUNNERS_PREFIX + tail;
    assert s[0] == 'a' && t[0] == 'r';
    DifferentFirst(s, t);
  }

  lemma PrefixOfRest(a: string, b: string)
    requires HasPrefix(RUNNERS_PREFIX + a, RUNNERS_PREFIX + b)
    ensures HasPrefix(a, b)
  {
    var s, t, n := RUNNERS_PREFIX + a, RUNNERS_PREFIX + b, |RUNNERS_PREFIX|;
    assert a[..|b|] == s[..|t|][n..] == t[n..] == b;
  }

  lemma SameNode(m: string, rest: string, node: string)
    requires '/' !in m && '/' !in node && HasPrefix(Slash(m, rest), Slash(node, ""))
    ensures m == node
  {
    CutAtSlash(m, rest);
    var s := Slash(m, rest);
    assert s[..|node| + 1] == Slash(node, "");
    assert s[|node|] == s[..|node| + 1][|node|] == '/';
    forall k | 0 <= k < |node| ensures s[k] != '/' { assert s[k] == s[..|node| + 1][k]; }
    IndexByteIs(s, '/', |node|);
    assert s[..|node|] == s[..|node| + 1][..|node|];
  }

  /** Other runners' groups, and the global ones, are the same in both. */
  lemma SameGroupsOutside(f: Files, fs: Groups, g: Files, gs: Groups, node: string, gk: GroupKey)
    requires Grouped(f, fs) && Grouped(g, gs) && '/' !in node && SameOutside(f, g, node) && gk.node != node
    ensures gk in fs <==> gk in gs
    ensures gk in fs ==> fs[gk] == gs[gk]
  {
    hide JoinKey, ValidKey, HasPrefix, RunnerPrefix;
    forall rel
      ensures Has(f, gk, rel) <==> Has(g, gk, rel)
      ensures Has(f, gk, rel) ==> f[JoinKey(FileKey(gk.node, gk.id, rel))] == g[JoinKey(FileKey(gk.node, gk.id, rel))] {
      var k := FileKey(gk.node, gk.id, rel);
      if ValidKey(k) && HasPrefix(JoinKey(k), RunnerPrefix(node)) { BelowRunner(k, node); }
    }
    SameGroupByFiles(f, fs, g, gs, gk);
  }

  lemma SameGroupByFiles(f: Files, fs: Groups, g: Files, gs: Groups, gk: GroupKey)
    requires Grouped(f, fs) && Grouped(g, gs)
    requires forall rel :: Has(f, gk, rel) <==> Has(g, gk, rel)
    requires forall rel :: Has(f, gk, rel) ==>
               f[JoinKey(FileKey(gk.node, gk.id, rel))] == g[JoinKey(FileKey(gk.node, gk.id, rel))]
    ensures gk in fs <==> gk in gs
    ensures gk in fs ==> fs[gk] == gs[gk]
  {
    hide Has, JoinKey;
    if gk in fs { var rel :| rel in fs[gk]; assert Has(f, gk, rel); }
    if gk in gs { var rel :| rel in gs[gk]; assert Has(g, gk, rel); }
    if gk in fs {
      forall rel ensures rel in fs[gk] <==> rel in gs[gk] {
        assert rel in fs[gk] <==> Has(f, gk, rel);
        assert rel in gs[gk] <==> Has(g, gk, rel);
      }
    }
  }

  ghost predicate Selects(mine: GroupKey -> bool, node: string) {
    forall gk :: mine(gk) <==> gk.node == node
  }

  /** Only a node's own groups matter for its agents and errors. */
  lemma {:induction false} OwnGroupsMatter(p: Decoder, teams: seq<string>, fs: Groups, gs: Groups,
                                           keys: seq<GroupKey>, node: string, mine: GroupKey -> bool)
    requires Selects(mine, node)
    requires forall gk <- keys :: gk in fs && (gk.node == node ==> gk in gs && fs[gk] == gs[gk])
    ensures DefsIn(p, teams, fs, keys, node) == DefsIn(p, teams, gs, Filter(mine, keys), node)
    ensures ErrsIn(p, teams, fs, keys, node) == ErrsIn(p, teams, gs, Filter(mine, keys), node)
  {
    if keys != [] {
      hide ParseAt;
      var n := |keys| - 1;
      var before, gk := Filter(mine, keys[..n]), keys[n];
      OwnGroupsMatter(p, teams, fs, gs, keys[..n], node, mine);
      assert gk in keys;
      if gk.node == node {
        assert Filter(mine, keys) == before + [gk] && (before + [gk])[..|before|] == before;
        SameParse(p, teams, fs, gs, gk);
      } else {
        assert Filter(mine, keys) == before;
      }
    }
  }

  /** One node's groups, sorted, do not depend on what other nodes have. */
  lemma SameSection(fs: Groups, gs: Groups, node: string, mine: GroupKey -> bool)
    requires Selects(mine, node)
    requires forall gk: GroupKey :: gk.node == node ==> (gk in fs <==> gk in gs)
    ensures Filter(mine, SortedGroups(fs)) == Filter(mine, SortedGroups(gs))
  {
    GroupOrder();
    var part := set gk | gk in fs && gk.node == node;
    assert part <= gs.Keys;
    FilterOfSorted(GroupLess, mine, fs.Keys, part);
    FilterOfSorted(GroupLess, mine, gs.Keys, part);
  }

  /** What one node gets is determined by its own files and the teams. */
  lemma NodeUnaffected(p: Decoder, teams: seq<string>, fs: Groups, gs: Groups, node: string)
    requires forall gk: GroupKey :: gk.node == node ==> (gk in fs <==> gk in gs) && (gk in fs ==> fs[gk] == gs[gk])
    ensures DefsIn(p, teams, fs, SortedGroups(fs), node) == DefsIn(p, teams, gs, SortedGroups(gs), node)
    ensures ErrsIn(p, teams, fs, SortedGroups(fs), node) == ErrsIn(p, teams, gs, SortedGroups(gs), node)
  {
    hide DefsIn, ErrsIn, SortedGroups, Filter;
    var mine := (gk: GroupKey) => gk.node == node;
    SameSection(fs, gs, node, mine);
    KeysInGroups(fs);
    KeysInGroups(gs);
    OwnGroupsMatter(p, teams, fs, gs, SortedGroups(fs), node, mine);
    OwnGroupsMatter(p, teams, gs, gs, SortedGroups(gs), node, mine);
  }

  lemma KeysInGroups(groups: Groups)
    ensures forall gk <- SortedGroups(groups) :: gk in groups
  {
    forall gk <- SortedGroups(groups) ensures gk in groups {
      assert gk in Elems(SortedGroups(groups));
    }
  }

  lemma TeamsNotBelow(node: string)
    ensures !HasPrefix(TEAMS_KEY, RunnerPrefix(node))
  {
    assert TEAMS_KEY[0] == 'a' && RunnerPrefix(node)[0] == 'r';
    DifferentFirst(TEAMS_KEY, RunnerPrefix(node));
  }

  lemma NodeIDHasNoSlash(node: string)
    requires ValidNodeID(node)
    ensures '/' !in node && node != ""
  {
  }

  /** Changing only what is below one valid runner's directory changes neither whether parsing succeeds, nor
      the teams, nor the agents and errors of any other runner or of the global scope. */
  lemma RunnerFaultsStayLocal(p: Decoder, f: Files, fs: Groups, g: Files, gs: Groups, node: string)
    requires Grouped(f, fs) && Grouped(g, gs) && ValidNodeID(node) && SameOutside(f, g, node)
    ensures TeamsOK(p, f) <==> TeamsOK(p, g)
    ensures TeamsOf(p, f) == TeamsOf(p, g)
    ensures GroupsOK(p, TeamsOf(p, f), fs) <==> GroupsOK(p, TeamsOf(p, g), gs)
    ensures forall m :: m != node ==>
              && DefsIn(p, TeamsOf(p, f), fs, SortedGroups(fs), m) == DefsIn(p, TeamsOf(p, g), gs, SortedGroups(gs), m)
              && ErrsIn(p, TeamsOf(p, f), fs, SortedGroups(fs), m) == ErrsIn(p, TeamsOf(p, g), gs, SortedGroups(gs), m)
  {
    hide Grouped, DefsIn, ErrsIn, SortedGroups, HasPrefix, RunnerPrefix, ValidNodeID, Fails, ParseAt;
    TeamsNotBelow(node);
    NodeIDHasNoSlash(node);
    var teams := TeamsOf(p, f);
    forall gk: GroupKey | gk.node != node
      ensures (gk in fs <==> gk in gs) && (gk in fs ==> fs[gk] == gs[gk])
      ensures ParseAt(p, teams, fs, gk) == ParseAt(p, teams, gs, gk) {
      SameGroupsOutside(f, fs, g, gs, node, gk);
      SameParse(p, teams, fs, gs, gk);
    }
    forall m | m != node
      ensures DefsIn(p, teams, fs, SortedGroups(fs), m) == DefsIn(p, teams, gs, SortedGroups(gs), m)
      ensures ErrsIn(p, teams, fs, SortedGroups(fs), m) == ErrsIn(p, teams, gs, SortedGroups(gs), m) {
      NodeUnaffected(p, teams, fs, gs, m);
    }
  }

  /** The same for the sets that come out: whatever changes below one runner's directory, the teams, the global
      agents, and every other runner's agents, errors and effective list stay what they were. */
  lemma OtherRunnersUnaffected(p: Decoder, f: Files, g: Files, node: string, a: FileSet, b: FileSet, m: string)
    requires ValidNodeID(node) && SameOutside(f, g, node) && Parsed(p, f, a) && Parsed(p, g, b)
    ensures a.teams == b.teams && a.global == b.global
    ensures m != node ==> a.RunnerDefs(m) == b.RunnerDefs(m) && a.ErrorsOf(m) == b.ErrorsOf(m)
    ensures m != node ==> EffectiveList(a, m) == EffectiveList(b, m)
  {
    hide Grouped, GroupsOf, GroupsOK, DefsIn, ErrsIn, SortedGroups, SameOutside, ValidNodeID, TeamsOf, SortedIDs;
    assert node != "" by { NodeIDHasNoSlash(node); }
    RunnerFaultsStayLocal(p, f, GroupsOf(f), g, GroupsOf(g), node);
  }

  lemma SameParse(p: Decoder, teams: seq<string>, fs: Groups, gs: Groups, gk: GroupKey)
    requires (gk in fs <==> gk in gs) && (gk in fs ==> fs[gk] == gs[gk])
    ensures ParseAt(p, teams, fs, gk) == ParseAt(p, teams, gs, gk)
  {
  }

  // ----- Effective and Collisions -----

  function DefinitionsAt(ids: seq<string>, defs: map<string, Definition>): seq<Definition>
    requires forall id <- ids :: id in defs
  {
    seq(|ids|, i requires 0 <= i < |ids| => defs[ids[i]])
  }

  /** Ids that a runner's agents share with global ones, in the given order. */
  function CollisionsIn(node: string, ids: seq<string>, global: map<string, Definition>): seq<AgentError> {
    if ids == [] then []
    else
      CollisionsIn(node, ids[..|ids| - 1], global)
      + if ids[|ids| - 1] in global then [Collision(node, ids[|ids| - 1])] else []
  }

  ghost function SortedIDs(defs: map<string, Definition>): (ids: seq<string>)
    ensures Elems(ids) == defs.Keys
  {
    StringOrder();
    SortedList(StringLess, defs.Keys)
  }

  method SortIDs(defs: map<string, Definition>) returns (ids: seq<string>)
    ensures ids == SortedIDs(defs) && forall id <- ids :: id in defs
  {
    hide StringLess;
    StringOrder();
    ids := SortKeys(StringLess, defs.Keys);
    forall id <- ids ensures id in defs { assert id in Elems(ids); }
  }

  lemma {:induction false} CollisionsMeans(node: string, ids: seq<string>, global: map<string, Definition>)
    ensures CollisionsIn(node, ids, global) == [] <==> Elems(ids) !! global.Keys
    ensures forall id :: Collision(node, id) in CollisionsIn(node, ids, global) <==> id in ids && id in global
  {
    if ids != [] {
      var n := |ids| - 1;
      CollisionsMeans(node, ids[..n], global);
      assert ids == ids[..n] + [ids[n]];
      assert Elems(ids) == Elems(ids[..n]) + {ids[n]};
    }
  }

  method CollisionsOfRunner(node: string, ids: seq<string>, global: map<string, Definition>)
    returns (errs: seq<AgentError>)
    ensures errs == CollisionsIn(node, ids, global)
    ensures forall n, id :: Collision(n, id) in errs <==> n == node && id in ids && id in global
  {
    errs := [];
    for i := 0 to |ids|
      invariant errs == CollisionsIn(node, ids[..i], global)
      invariant forall n, id :: Collision(n, id) in errs <==> n == node && id in ids[..i] && id in global
    {
      assert ids[..i + 1][..i] == ids[..i];
      if ids[i] in global {
        errs := errs + [Collision(node, ids[i])];
      }
    }
    assert ids[..|ids|] == ids;
  }

  /** Effective: a runner's list is refused exactly for its own parse errors and for ids it shares with the
      global scope; otherwise it is the global agents by id, then the runner's own by id. */
  method Effective(s: FileSet, node: string) returns (r: Result<seq<Definition>, seq<AgentError>>)
    ensures r.Success? <==> s.ErrorsOf(node) == [] && s.global.Keys !! s.RunnerDefs(node).Keys
    ensures r.Success? ==> r.value == EffectiveList(s, node)
    ensures r.Failure? ==> r.error == s.ErrorsOf(node) + CollisionsIn(node, SortedIDs(s.RunnerDefs(node)), s.global)
  {
    hide SortedIDs, StringLess, CollisionsIn;
    var own := s.RunnerDefs(node);
    var ownIDs := SortIDs(own);
    var shared := CollisionsOfRunner(node, ownIDs, s.global);
    CollisionsMeans(node, ownIDs, s.global);
    var errs := s.ErrorsOf(node) + shared;
    if |errs| > 0 { return Failure(errs); }
    var globalIDs := SortIDs(s.global);
    r := Success(DefinitionsAt(globalIDs, s.global) + DefinitionsAt(ownIDs, own));
  }

  ghost function EffectiveList(s: FileSet, node: string): seq<Definition> {
    DefinitionsAt(SortedIDs(s.global), s.global) + DefinitionsAt(SortedIDs(s.RunnerDefs(node)), s.RunnerDefs(node))
  }

  /** Every agent is filed under its own id. */
  ghost predicate FiledByID(defs: map<string, Definition>) {
    forall id <- defs :: defs[id].id == id
  }

  lemma {:induction false} DefsFiledByID(p: Decoder, teams: seq<string>, groups: Groups, keys: seq<GroupKey>, node: string)
    ensures FiledByID(DefsIn(p, teams, groups, keys, node))
  {
    if keys != [] {
      hide ParseAt;
      DefsFiledByID(p, teams, groups, keys[..|keys| - 1], node);
    }
  }

  /** In a set that parsing returned every agent is filed under its own id. */
  lemma ParsedIsFiled(p: Decoder, files: Files, s: FileSet, node: string)
    requires Parsed(p, files, s)
    ensures FiledByID(s.global) && FiledByID(s.RunnerDefs(node))
  {
    hide GroupsOf, SortedGroups, DefsIn, ErrsIn, TeamsOf;
    DefsFiledByID(p, TeamsOf(p, files), GroupsOf(files), SortedGroups(GroupsOf(files)), "");
    DefsFiledByID(p, TeamsOf(p, files), GroupsOf(files), SortedGroups(GroupsOf(files)), node);
  }

  /** For a set that parsing returned: the ids of a valid effective list are distinct, and the list is sorted by id
      exactly when every global id comes before every id of the runner. */
  lemma ParsedLists(p: Decoder, files: Files, s: FileSet, node: string)
    requires Parsed(p, files, s)
    ensures s.global.Keys !! s.RunnerDefs(node).Keys ==> DistinctByID(EffectiveList(s, node))
    ensures SortedByID(EffectiveList(s, node)) <==> AllBefore(s.global.Keys, s.RunnerDefs(node).Keys)
  {
    hide Parsed, FiledByID, EffectiveList, SortedByID, AllBefore;
    ParsedIsFiled(p, files, s, node);
    EffectiveSortedIff(s, node);
    if s.global.Keys !! s.RunnerDefs(node).Keys {
      forall i, j | 0 <= i < j < |EffectiveList(s, node)|
        ensures EffectiveList(s, node)[i].id != EffectiveList(s, node)[j].id {
        EffectiveIDsDistinct(s, node, i, j);
      }
    }
  }

  ghost predicate DistinctByID(defs: seq<Definition>) {
    forall i, j :: 0 <= i < j < |defs| ==> defs[i].id != defs[j].id
  }

  /** No id occurs twice in an effective list. */
  lemma EffectiveIDsDistinct(s: FileSet, node: string, i: nat, j: nat)
    requires FiledByID(s.global) && FiledByID(s.RunnerDefs(node)) && s.global.Keys !! s.RunnerDefs(node).Keys
    requires i < j < |EffectiveList(s, node)|
    ensures EffectiveList(s, node)[i].id != EffectiveList(s, node)[j].id
  {
    hide SortedIDs, EffectiveList;
    var gs, os := SortedIDs(s.global), SortedIDs(s.RunnerDefs(node));
    EffectiveIDs(s, node);
    SortedIDsDistinct(s.global);
    SortedIDsDistinct(s.RunnerDefs(node));
    SortedIDsExist(s.global);
    SortedIDsExist(s.RunnerDefs(node));
    assert i < |gs| <= j ==> gs[i] in s.global.Keys && os[j - |gs|] in s.RunnerDefs(node).Keys;
  }

  /** StringLess holds between all ids of one scope and all of the other. */
  ghost predicate AllBefore(earlier: set<string>, later: set<string>) {
    forall g <- earlier, o <- later :: StringLess(g, o)
  }

  ghost predicate SortedByID(defs: seq<Definition>) {
    forall i, j :: 0 <= i < j < |defs| ==> StringLess(defs[i].id, defs[j].id)
  }

  lemma DefinitionIDs(ids: seq<string>, defs: map<string, Definition>)
    requires FiledByID(defs) && forall id <- ids :: id in defs
    ensures |DefinitionsAt(ids, defs)| == |ids|
    ensures forall i :: 0 <= i < |ids| ==> DefinitionsAt(ids, defs)[i].id == ids[i]
  {
  }

  lemma SortedIDsExist(defs: map<string, Definition>)
    ensures forall id <- SortedIDs(defs) :: id in defs
    ensures forall id <- defs :: id in SortedIDs(defs)
  {
    var ids := SortedIDs(defs);
    assert forall id <- ids :: id in Elems(ids);
    assert forall id <- defs :: id in Elems(ids);
  }

  /** The ids of an effective list: those of the global agents, then the runner's own. */
  lemma EffectiveIDs(s: FileSet, node: string)
    requires FiledByID(s.global) && FiledByID(s.RunnerDefs(node))
    ensures |EffectiveList(s, node)| == |SortedIDs(s.global) + SortedIDs(s.RunnerDefs(node))|
    ensures forall i :: 0 <= i < |EffectiveList(s, node)| ==>
              EffectiveList(s, node)[i].id == (SortedIDs(s.global) + SortedIDs(s.RunnerDefs(node)))[i]
  {
    hide SortedIDs, DefinitionsAt;
    SortedIDsExist(s.global);
    SortedIDsExist(s.RunnerDefs(node));
    DefinitionIDs(SortedIDs(s.global), s.global);
    DefinitionIDs(SortedIDs(s.RunnerDefs(node)), s.RunnerDefs(node));
  }

  /** A concatenation of sorted lists is sorted exactly when the first list comes before the second. */
  lemma ConcatSortedIff(a: seq<string>, b: seq<string>)
    requires Sorted(StringLess, a) && Sorted(StringLess, b)
    ensures Sorted(StringLess, a + b) <==> forall x <- a, y <- b :: StringLess(x, y)
  {
    hide StringLess;
    if Sorted(StringLess, a + b) {
      forall x <- a, y <- b ensures StringLess(x, y) {
        var i :| 0 <= i < |a| && a[i] == x;
        var j :| 0 <= j < |b| && b[j] == y;
        assert StringLess((a + b)[i], (a + b)[|a| + j]);
      }
    }
  }

  lemma SortedByIDIff(defs: seq<Definition>, ids: seq<string>)
    requires |defs| == |ids| && forall i :: 0 <= i < |defs| ==> defs[i].id == ids[i]
    ensures SortedByID(defs) <==> Sorted(StringLess, ids)
  {
    hide StringLess;
  }

  /** The list as a whole is sorted by id exactly when every global id comes before every id of the runner. */
  lemma EffectiveSortedIff(s: FileSet, node: string)
    requires FiledByID(s.global) && FiledByID(s.RunnerDefs(node))
    ensures SortedByID(EffectiveList(s, node)) <==> AllBefore(s.global.Keys, s.RunnerDefs(node).Keys)
  {
    hide StringLess, SortedIDs, EffectiveList, SortedByID, Sorted;
    var gs, os := SortedIDs(s.global), SortedIDs(s.RunnerDefs(node));
    EffectiveIDs(s, node);
    SortedByIDIff(EffectiveList(s, node), gs + os);
    SortedIDsSorted(s.global);
    SortedIDsSorted(s.RunnerDefs(node));
    ConcatSortedIff(gs, os);
    SortedIDsExist(s.global);
    SortedIDsExist(s.RunnerDefs(node));
  }

  /** The documentation's "sorted by id" fails already for a global agent b and a runner's own agent a. */
  lemma EffectiveNotSorted(b: Definition, a: Definition)
    requires b.id == "b" && a.id == "a"
    ensures var s := FileSet([], map["b" := b], map["n" := map["a" := a]], map[]);
      s.ErrorsOf("n") == [] && s.global.Keys !! s.RunnerDefs("n").Keys && !SortedByID(EffectiveList(s, "n"))
  {
    var s := FileSet([], map["b" := b], map["n" := map["a" := a]], map[]);
    EffectiveSortedIff(s, "n");
    assert "b" in s.global.Keys && "a" in s.RunnerDefs("n").Keys && !StringLess("b", "a");
  }

  lemma SortedIDsDistinct(defs: map<string, Definition>)
    ensures Distinct(SortedIDs(defs))
  {
    hide StringLess;
    StringOrder();
    var ids := SortedIDs(defs);
    forall i, j | 0 <= i < j < |ids| ensures ids[i] != ids[j] {
      assert StringLess(ids[i], ids[j]);
    }
  }

  /** The collisions of the given runners, one runner after the other, each by id. */
  ghost function CollisionsOver(s: FileSet, nodes: seq<string>): seq<AgentError>
    requires forall n <- nodes :: n in s.runners
  {
    if nodes == [] then []
    else
      var n := nodes[|nodes| - 1];
      CollisionsOver(s, nodes[..|nodes| - 1]) + CollisionsIn(n, SortedIDs(s.runners[n]), s.global)
  }

  ghost function SortedRunners(s: FileSet): (nodes: seq<string>)
    ensures Elems(nodes) == s.runners.Keys && forall n <- nodes :: n in s.runners
  {
    StringOrder();
    var nodes := SortedList(StringLess, s.runners.Keys);
    assert forall n <- nodes :: n in Elems(nodes);
    nodes
  }

  /** Collisions: the shared ids of every runner, by runner and then by id. */
  method Collisions(s: FileSet) returns (errs: seq<AgentError>)
    ensures errs == CollisionsOver(s, SortedRunners(s))
  {
    hide *;
    var nodes := SortRunners(s);
    errs := [];
    NoCollisionsYet(s);
    for i := 0 to |nodes|
      invariant errs == CollisionsOver(s, nodes[..i])
    {
      CollisionsOverNext(s, nodes, i);
      var ids := SortIDs(s.runners[nodes[i]]);
      var more := CollisionsOfRunner(nodes[i], ids, s.global);
      errs := errs + more;
    }
    assert nodes[..|nodes|] == nodes;
  }

  method SortRunners(s: FileSet) returns (nodes: seq<string>)
    ensures nodes == SortedRunners(s)
  {
    hide StringLess;
    StringOrder();
    nodes := SortKeys(StringLess, s.runners.Keys);
  }

  lemma NoCollisionsYet(s: FileSet)
    ensures CollisionsOver(s, []) == []
  {
  }

  lemma CollisionsOverNext(s: FileSet, nodes: seq<string>, i: nat)
    requires i < |nodes| && forall n <- nodes :: n in s.runners
    ensures CollisionsOver(s, nodes[..i + 1]) ==
            CollisionsOver(s, nodes[..i]) + CollisionsIn(nodes[i], SortedIDs(s.runners[nodes[i]]), s.global)
  {
    hide CollisionsIn, SortedIDs;
    assert nodes[..i + 1][..i] == nodes[..i];
  }

  predicate CollisionLess(a: AgentError, b: AgentError) {
    a.Collision? && b.Collision? && GroupLess(GroupKey(a.node, a.id), GroupKey(b.node, b.id))
  }

  ghost predicate CollisionsSorted(errs: seq<AgentError>) {
    forall i, j :: 0 <= i < j < |errs| ==> CollisionLess(errs[i], errs[j])
  }

  /** The report holds exactly the ids that a runner defines beside a global agent ... */
  lemma {:induction false} CollisionsOverMeans(s: FileSet, nodes: seq<string>, n: string, id: string)
    requires forall n <- nodes :: n in s.runners
    ensures Collision(n, id) in CollisionsOver(s, nodes) <==> n in nodes && id in s.runners[n] && id in s.global
    decreases |nodes|
  {
    if nodes != [] {
      var last := nodes[|nodes| - 1];
      hide CollisionsIn, SortedIDs;
      CollisionsOverMeans(s, nodes[..|nodes| - 1], n, id);
      CollisionInMeans(last, SortedIDs(s.runners[last]), s.global, n, id);
      assert id in SortedIDs(s.runners[last]) <==> id in Elems(SortedIDs(s.runners[last]));
      assert nodes == nodes[..|nodes| - 1] + [last];
    }
  }

  lemma {:induction false} CollisionInMeans(node: string, ids: seq<string>, global: map<string, Definition>,
                                            n: string, id: string)
    ensures Collision(n, id) in CollisionsIn(node, ids, global) <==> n == node && id in ids && id in global
  {
    if ids != [] {
      CollisionInMeans(node, ids[..|ids| - 1], global, n, id);
      assert ids == ids[..|ids| - 1] + [ids[|ids| - 1]];
    }
  }

  /** Every error of the list is a collision of one of the nodes. */
  ghost predicate CollisionsOf(errs: seq<AgentError>, nodes: seq<string>) {
    forall i :: 0 <= i < |errs| ==> errs[i].Collision? && errs[i].node in nodes
  }

  /** One runner's collisions, by id. */
  ghost predicate OneRunner(errs: seq<AgentError>, node: string, ids: seq<string>) {
    && CollisionsSorted(errs)
    && forall i :: 0 <= i < |errs| ==> errs[i].Collision? && errs[i].node == node && errs[i].id in ids
  }

  lemma OneRunnerSnoc(errs: seq<AgentError>, node: string, ids: seq<string>, id: string)
    requires OneRunner(errs, node, ids) && forall x <- ids :: StringLess(x, id)
    ensures OneRunner(errs, node, ids + [id]) && OneRunner(errs + [Collision(node, id)], node, ids + [id])
  {
    hide StringLess;
  }

  lemma LastIsGreatest(ids: seq<string>, most: seq<string>, last: string)
    requires Sorted(StringLess, ids) && ids == most + [last]
    ensures Sorted(StringLess, most) && forall x <- most :: StringLess(x, last)
  {
    hide StringLess;
    forall x <- most ensures StringLess(x, last) {
      var i :| 0 <= i < |most| && most[i] == x;
      assert ids[i] == x && ids[|most|] == last;
    }
    forall i, j | 0 <= i < j < |most| ensures StringLess(most[i], most[j]) {
      assert StringLess(ids[i], ids[j]);
    }
  }

  lemma {:induction false} CollisionsInSorted(node: string, ids: seq<string>, global: map<string, Definition>)
    requires Sorted(StringLess, ids)
    ensures OneRunner(CollisionsIn(node, ids, global), node, ids)
  {
    hide StringLess, Sorted, OneRunner;
    if ids == [] {
      NoCollisionsSorted(node);
    } else {
      var most, last := ids[..|ids| - 1], ids[|ids| - 1];
      assert ids == most + [last];
      LastIsGreatest(ids, most, last);
      CollisionsInSorted(node, most, global);
      OneRunnerSnoc(CollisionsIn(node, most, global), node, most, last);
      assert CollisionsIn(node, most, global) + [] == CollisionsIn(node, most, global);
    }
  }

  lemma SortedConcat(a: seq<AgentError>, b: seq<AgentError>, nodes: seq<string>, last: string, ids: seq<string>)
    requires CollisionsOf(a, nodes) && CollisionsSorted(a) && OneRunner(b, last, ids)
    requires forall n <- nodes :: StringLess(n, last)
    ensures CollisionsOf(a + b, nodes + [last]) && CollisionsSorted(a + b)
  {
    hide StringLess;
  }

  /** ... and it is sorted by runner and then by id. */
  lemma {:induction false} CollisionsOverSorted(s: FileSet, nodes: seq<string>)
    requires (forall n <- nodes :: n in s.runners) && Sorted(StringLess, nodes)
    ensures CollisionsOf(CollisionsOver(s, nodes), nodes) && CollisionsSorted(CollisionsOver(s, nodes))
  {
    hide StringLess, Sorted, CollisionsIn, SortedIDs, CollisionsOf, CollisionsSorted, OneRunner;
    if nodes == [] {
      NoCollisionsSorted("");
    } else {
      var most, last := nodes[..|nodes| - 1], nodes[|nodes| - 1];
      var ids := SortedIDs(s.runners[last]);
      assert nodes == most + [last];
      LastIsGreatest(nodes, most, last);
      CollisionsOverSorted(s, most);
      SortedIDsSorted(s.runners[last]);
      CollisionsInSorted(last, ids, s.global);
      SortedConcat(CollisionsOver(s, most), CollisionsIn(last, ids, s.global), most, last, ids);
    }
  }

  lemma NoCollisionsSorted(node: string)
    ensures CollisionsOf([], []) && CollisionsSorted([]) && OneRunner([], node, [])
  {
  }

  lemma SortedIDsSorted(defs: map<string, Definition>)
    ensures Sorted(StringLess, SortedIDs(defs))
  {
    hide StringLess;
    StringOrder();
  }

  /** Collisions reports exactly the ids that a runner defines beside a global agent, sorted by runner and id. */
  lemma CollisionsReport(s: FileSet, n: string, id: string)
    ensures Collision(n, id) in CollisionsOver(s, SortedRunners(s)) <==>
            n in s.runners && id in s.runners[n] && id in s.global
    ensures CollisionsSorted(CollisionsOver(s, SortedRunners(s)))
  {
    hide StringLess, CollisionsOver, CollisionsSorted;
    StringOrder();
    var nodes := SortedRunners(s);
    assert n in nodes <==> n in Elems(nodes);
    CollisionsOverMeans(s, nodes, n, id);
    CollisionsOverSorted(s, nodes);
  }
}
