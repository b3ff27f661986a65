/** Which account holds the newest copy of a claude session (agentwrapper/accounts/claude_session.go). */
module SessionSearch {
  import opened Wrappers
  import opened GoText
  import opened FirstMaximum
  import opened Sorting
  import opened SessionCopy

  datatype Copied = Copied(alias: string, size: nat, mtime: int)

  /** The size and time of the session's jsonl in one project, if it is a regular file there. */
  datatype JsonlInfo = JsonlInfo(size: nat, mtime: int)

  /** An account with its project directories in listing order. */
  datatype Account = Account(alias: string, projects: seq<Option<JsonlInfo>>)

  /** Larger wins, then newer. */
  predicate Newer(a: Copied, b: Copied) {
    a.size > b.size || (a.size == b.size && a.mtime > b.mtime)
  }

  function InProjects(alias: string, projects: seq<Option<JsonlInfo>>): seq<Copied> {
    if projects == [] then []
    else
      var most := projects[..|projects| - 1];
      match projects[|projects| - 1]
      case Some(info) => InProjects(alias, most) + [Copied(alias, info.size, info.mtime)]
      case None => InProjects(alias, most)
  }

  /** Every copy of the session, account by account. */
  function Copies(accounts: seq<Account>): seq<Copied> {
    if accounts == [] then []
    else
      var last := accounts[|accounts| - 1];
      Copies(accounts[..|accounts| - 1]) + InProjects(last.alias, last.projects)
  }

  /** Every account has a directory: its alias is a valid one. */
  predicate AllNamed(accounts: seq<Account>) {
    forall a :: 0 <= a < |accounts| ==> ShortName(accounts[a].alias)
  }

  /** What the search needs before it can answer: a session id, the list of accounts, and their directories. */
  predicate Searchable(sid: string, listing: Result<seq<Account>, string>) {
    ValidSessionID(sid) && listing.Success? && AllNamed(listing.value)
  }

  /** The account holds a copy that no other is larger than, nor newer among those of its size. */
  ghost predicate HoldsNewest(accounts: seq<Account>, alias: string) {
    exists c <- Copies(accounts) :: c.alias == alias && forall d <- Copies(accounts) ::
      d.size < c.size || (d.size == c.size && d.mtime <= c.mtime)
  }

  lemma NewestIsHeld(accounts: seq<Account>, i: nat)
    requires IsFirstMaximum(Newer, Copies(accounts), i)
    ensures HoldsNewest(accounts, Copies(accounts)[i].alias)
  {
    hide Copies;
    var cs := Copies(accounts);
    forall d <- cs ensures d.size < cs[i].size || (d.size == cs[i].size && d.mtime <= cs[i].mtime) {
      var j :| 0 <= j < |cs| && cs[j] == d;
      assert !Newer(cs[j], cs[i]);
    }
  }

  method FindClaudeSession(sid: string, listing: Result<seq<Account>, string>) returns (r: Result<Option<string>, string>)
    ensures r.Success? <==> Searchable(sid, listing)
    ensures r.Success? ==> (r.value.None? <==> Copies(listing.value) == [])
    ensures r.Success? && r.value.Some? ==>
              exists i: nat :: IsFirstMaximum(Newer, Copies(listing.value), i) &&
                               Copies(listing.value)[i].alias == r.value.value
    ensures r.Success? && r.value.Some? ==> HoldsNewest(listing.value, r.value.value)
  {
    hide ValidSessionID, ShortName, Newer, Copies, Best, IsFirstMaximum;
    if !ValidSessionID(sid) { return Failure(sid); }
    if listing.Failure? { return Failure(listing.error); }
    var accounts := listing.value;
    var best: Option<Copied> := None;
    NoCopies();
    for a := 0 to |accounts|
      invariant best == Best(Newer, Copies(accounts[..a]))
      invariant forall b :: 0 <= b < a ==> ShortName(accounts[b].alias)
    {
      if !ShortName(accounts[a].alias) { return Failure(accounts[a].alias); }
      CopiesGrow(accounts, a);
      best := SearchProjects(accounts[a], Copies(accounts[..a]), best);
    }
    assert accounts[..|accounts|] == accounts;
    if best.None? { return Success(None); }
    NewerIsRanking();
    ghost var i := BestIsFirstMaximum(Newer, Copies(accounts));
    NewestIsHeld(accounts, i);
    return Success(Some(best.value.alias));
  }

  /** The inner loop: the best copy after the projects of one more account. */
  method SearchProjects(account: Account, ghost before: seq<Copied>, start: Option<Copied>) returns (best: Option<Copied>)
    requires start == Best(Newer, before)
    ensures best == Best(Newer, before + InProjects(account.alias, account.projects))
  {
    hide Best;
    best := start;
    assert before + InProjects(account.alias, []) == before;
    for p := 0 to |account.projects|
      invariant best == Best(Newer, before + InProjects(account.alias, account.projects[..p]))
    {
      assert account.projects[..p + 1][..p] == account.projects[..p];
      var info := account.projects[p];
      if info.Some? {
        var c := Copied(account.alias, info.value.size, info.value.mtime);
        ghost var seen := before + InProjects(account.alias, account.projects[..p]);
        assert seen + [c] == before + InProjects(account.alias, account.projects[..p + 1]);
        BestSnoc(Newer, seen, c);
        if best.None? || c.size > best.value.size || (c.size == best.value.size && c.mtime > best.value.mtime) {
          best := Some(c);
        }
      }
    }
    assert account.projects[..|account.projects|] == account.projects;
  }

  lemma NoCopies()
    ensures Best(Newer, Copies([])) == None
  {
  }

  lemma NewerIsRanking()
    ensures Ranking(Newer)
  {
  }

  lemma CopiesGrow(accounts: seq<Account>, a: nat)
    requires a < |accounts|
    ensures Copies(accounts[..a + 1]) == Copies(accounts[..a]) + InProjects(accounts[a].alias, accounts[a].projects)
  {
    assert accounts[..a + 1][..a] == accounts[..a];
  }

  /** Every copy that an account holds is in the list of copies, and nothing else is. */
  lemma {:induction false} CopiesAreAll(accounts: seq<Account>, c: Copied)
    ensures c in Copies(accounts) <==>
            exists a :: 0 <= a < |accounts| && accounts[a].alias == c.alias &&
                        Some(JsonlInfo(c.size, c.mtime)) in accounts[a].projects
  {
    if accounts != [] {
      var n := |accounts| - 1;
      CopiesAreAll(accounts[..n], c);
      InProjectsAreAll(accounts[n].alias, accounts[n].projects, c);
      assert forall a :: 0 <= a < n ==> accounts[..n][a] == accounts[a];
    }
  }

  lemma {:induction false} InProjectsAreAll(alias: string, projects: seq<Option<JsonlInfo>>, c: Copied)
    ensures c in InProjects(alias, projects) <==> c.alias == alias && Some(JsonlInfo(c.size, c.mtime)) in projects
  {
    if projects != [] {
      var n := |projects| - 1;
      InProjectsAreAll(alias, projects[..n], c);
      assert projects == projects[..n] + [projects[n]];
    }
  }

  ghost predicate AliasesSorted(accounts: seq<Account>) {
    forall a, b :: 0 <= a < b < |accounts| ==> StringLess(accounts[a].alias, accounts[b].alias)
  }

  predicate AtMost(a: string, b: string) {
    a == b || StringLess(a, b)
  }

  lemma {:induction false} CopiesInAliasOrder(accounts: seq<Account>, i: nat, j: nat)
    requires AliasesSorted(accounts) && i <= j < |Copies(accounts)|
    ensures AtMost(Copies(accounts)[i].alias, Copies(accounts)[j].alias)
  {
    var n := |accounts| - 1;
    var before := Copies(accounts[..n]);
    if j < |before| {
      CopiesInAliasOrder(accounts[..n], i, j);
    } else {
      InProjectsAreAll(accounts[n].alias, accounts[n].projects, Copies(accounts)[j]);
      if i < |before| {
        CopiesAreAll(accounts[..n], before[i]);
      } else {
        InProjectsAreAll(accounts[n].alias, accounts[n].projects, Copies(accounts)[i]);
      }
    }
  }

  /** Of the copies that tie for the largest and newest, the chosen one has the least alias. */
  lemma TieGoesToLeastAlias(accounts: seq<Account>, i: nat, j: nat)
    requires AliasesSorted(accounts) && IsFirstMaximum(Newer, Copies(accounts), i)
    requires j < |Copies(accounts)| && !Newer(Copies(accounts)[i], Copies(accounts)[j])
    ensures AtMost(Copies(accounts)[i].alias, Copies(accounts)[j].alias)
  {
    hide Newer, Copies, AliasesSorted, AtMost;
    CopiesInAliasOrder(accounts, i, j);
  }
}
