/**
The keys of an agent file set (pkg/agentspec/fileset.go): which runner and agent a file belongs to, and its path within
the agent.
*/
module AgentFileSet {
  import opened Wrappers
  import opened GoText

  const TEAMS_KEY := "agents/teams.yaml"
  const GLOBAL_PREFIX := "agents/"
  const RUNNERS_PREFIX := "runners/"

  /** Contents by key, or, for one agent, by path relative to its directory. */
  type Files = map<string, string>

  // ----- File keys -----

  /** The owner of a file: the runner (empty for a global agent), the agent and the path within it. */
  datatype FileKey = FileKey(node: string, id: string, rel: string)

  predicate ValidKey(k: FileKey) {
    '/' !in k.node && '/' !in k.id && k.id != "" && k.rel != ""
  }

  function Slash(head: string, tail: string): string {
    head + "/" + tail
  }

  /** agents/<id>/<file>, or runners/<node>/agents/<id>/<file>. */
  function JoinKey(k: FileKey): string {
    if k.node == "" then GLOBAL_PREFIX + Slash(k.id, k.rel)
    else RUNNERS_PREFIX + Slash(k.node, Slash("agents", Slash(k.id, k.rel)))
  }

  /** `<id>/<file>` */
  function SplitRest(node: string, rest: string): Option<FileKey> {
    var i := IndexByte(rest, '/');
    if i == -1 || rest[..i] == "" || rest[i + 1..] == "" then None
    else Some(FileKey(node, rest[..i], rest[i + 1..]))
  }

  function SplitRunner(rest: string): Option<FileKey> {
    var i := IndexByte(rest, '/');
    if i == -1 then None
    else
      var tail := rest[i + 1..];
      var j := IndexByte(tail, '/');
      if j == -1 || rest[..i] == "" || tail[..j] != "agents" then None
      else SplitRest(rest[..i], tail[j + 1..])
  }

  function SplitAgentKey(key: string): Option<FileKey> {
    if HasPrefix(key, GLOBAL_PREFIX) then SplitRest("", key[|GLOBAL_PREFIX|..])
    else if HasPrefix(key, RUNNERS_PREFIX) then SplitRunner(key[|RUNNERS_PREFIX|..])
    else None
  }

  /** Cutting at the first slash and putting a slash-free part in front of one undo each other. */
  lemma CutAtSlash(head: string, tail: string)
    requires '/' !in head
    ensures IndexByte(Slash(head, tail), '/') == |head|
    ensures Slash(head, tail)[..|head|] == head && Slash(head, tail)[|head| + 1..] == tail
  {
    var s := Slash(head, tail);
    assert forall k :: 0 <= k < |head| ==> s[k] == head[k];
    IndexByteIs(s, '/', |head|);
  }

  lemma CutParts(s: string)
    requires IndexByte(s, '/') != -1
    ensures var i := IndexByte(s, '/'); '/' !in s[..i] && s == Slash(s[..i], s[i + 1..])
  {
  }

  lemma SplitRestIff(node: string, rest: string, k: FileKey)
    ensures SplitRest(node, rest) == Some(k) <==>
            k.node == node && '/' !in k.id && k.id != "" && k.rel != "" && rest == Slash(k.id, k.rel)
  {
    hide IndexByte, Slash;
    if SplitRest(node, rest) == Some(k) {
      CutParts(rest);
    } else if k.node == node && '/' !in k.id && k.id != "" && k.rel != "" && rest == Slash(k.id, k.rel) {
      CutAtSlash(k.id, k.rel);
    }
  }

  lemma SplitRunnerSound(rest: string, k: FileKey)
    requires SplitRunner(rest) == Some(k)
    ensures ValidKey(k) && k.node != "" && rest == Slash(k.node, Slash("agents", Slash(k.id, k.rel)))
  {
    hide IndexByte, SplitRest, Slash;
    CutParts(rest);
    var i := IndexByte(rest, '/');
    var tail := rest[i + 1..];
    CutParts(tail);
    SplitRestIff(rest[..i], tail[IndexByte(tail, '/') + 1..], k);
  }

  lemma SplitRunnerComplete(rest: string, k: FileKey)
    requires ValidKey(k) && k.node != "" && rest == Slash(k.node, Slash("agents", Slash(k.id, k.rel)))
    ensures SplitRunner(rest) == Some(k)
  {
    hide IndexByte, SplitRest, Slash;
    CutAtSlash(k.node, Slash("agents", Slash(k.id, k.rel)));
    assert '/' !in "agents";
    CutAtSlash("agents", Slash(k.id, k.rel));
    SplitRestIff(k.node, Slash(k.id, k.rel), k);
  }

  lemma PrefixThenRest(prefix: string, rest: string)
    ensures HasPrefix(prefix + rest, prefix) && (prefix + rest)[|prefix|..] == rest
  {
  }

  lemma DifferentPrefixes(rest: string)
    ensures !HasPrefix(RUNNERS_PREFIX + rest, GLOBAL_PREFIX)
  {
    assert (RUNNERS_PREFIX + rest)[0] == 'r' && GLOBAL_PREFIX[0] == 'a';
    DifferentFirst(RUNNERS_PREFIX + rest, GLOBAL_PREFIX);
  }

  lemma SplitSound(key: string, k: FileKey)
    requires SplitAgentKey(key) == Some(k)
    ensures ValidKey(k) && key == JoinKey(k)
  {
    hide SplitRest, SplitRunner, Slash;
    if HasPrefix(key, GLOBAL_PREFIX) {
      SplitRestIff("", key[|GLOBAL_PREFIX|..], k);
      assert key == GLOBAL_PREFIX + key[|GLOBAL_PREFIX|..];
    } else {
      SplitRunnerSound(key[|RUNNERS_PREFIX|..], k);
      assert key == RUNNERS_PREFIX + key[|RUNNERS_PREFIX|..];
    }
  }

  lemma SplitComplete(k: FileKey)
    requires ValidKey(k)
    ensures SplitAgentKey(JoinKey(k)) == Some(k)
  {
    hide SplitRest, SplitRunner, Slash, HasPrefix;
    if k.node == "" {
      PrefixThenRest(GLOBAL_PREFIX, Slash(k.id, k.rel));
      SplitRestIff("", Slash(k.id, k.rel), k);
    } else {
      var rest := Slash(k.node, Slash("agents", Slash(k.id, k.rel)));
      PrefixThenRest(RUNNERS_PREFIX, rest);
      DifferentPrefixes(rest);
      SplitRunnerComplete(rest, k);
    }
  }

  /** splitAgentKey recognizes exactly the keys of valid owners, and gives the owner back: the two directions
      of a one-to-one naming of files. */
  lemma SplitInvertsJoin(key: string, k: FileKey)
    ensures SplitAgentKey(key) == Some(k) <==> ValidKey(k) && key == JoinKey(k)
  {
    hide *;
    if SplitAgentKey(key) == Some(k) { SplitSound(key, k); }
    if ValidKey(k) && key == JoinKey(k) { SplitComplete(k); }
  }
}
