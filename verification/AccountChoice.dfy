/**
Choosing the account to report for a model (agentwrapper/supported.go).  Which model names match is a parameter, and
remaining fractions are reals.
*/
module AccountChoice {
  import opened Wrappers
  import opened FirstMaximum

  /** statusOnly entries report a failed query, not a model; usable is the quota policy's verdict, if any. */
  datatype Usage = Usage(model: string, statusOnly: bool, remaining: real, usable: Option<bool>, reason: string)

  datatype QuotaCheck = QuotaCheck(remaining: real, usable: Option<bool>, reason: string)

  predicate Accepted(u: Usage) {
    u.usable == Some(true)
  }

  /** An accepted entry wins, then the one with more remaining. */
  predicate Better(u: Usage, v: Usage) {
    (Accepted(u) && !Accepted(v)) || (Accepted(u) == Accepted(v) && u.remaining > v.remaining)
  }

  predicate Matches(matches: string -> bool, u: Usage) {
    !u.statusOnly && matches(u.model)
  }

  /** The regular entries for the model, in order. */
  function Matching(matches: string -> bool, usages: seq<Usage>): seq<Usage> {
    if usages == [] then []
    else
      var most := usages[..|usages| - 1];
      var last := usages[|usages| - 1];
      if Matches(matches, last) then Matching(matches, most) + [last] else Matching(matches, most)
  }

  function BestMatching(matches: string -> bool, usages: seq<Usage>): Option<Usage> {
    Best(Better, Matching(matches, usages))
  }

  method BestMatchingUsage(matches: string -> bool, usages: seq<Usage>) returns (best: Option<Usage>)
    ensures best == BestMatching(matches, usages)
  {
    best := None;
    for i := 0 to |usages|
      invariant best == BestMatching(matches, usages[..i])
    {
      var u := usages[i];
      assert usages[..i + 1][..i] == usages[..i];
      if !u.statusOnly && matches(u.model) {
        BestSnoc(Better, Matching(matches, usages[..i]), u);
        if best.None? || (Accepted(u) && !Accepted(best.value))
           || (Accepted(u) == Accepted(best.value) && u.remaining > best.value.remaining)
        {
          best := Some(u);
        }
      }
    }
    assert usages[..|usages|] == usages;
  }

  /** The entries of all accounts, one account after the other. */
  function Concat(accounts: seq<seq<Usage>>): seq<Usage> {
    if accounts == [] then [] else Concat(accounts[..|accounts| - 1]) + accounts[|accounts| - 1]
  }

  /** Some account answered without an entry for the model. */
  predicate Missing(matches: string -> bool, accounts: seq<seq<Usage>>) {
    exists a :: 0 <= a < |accounts| && BestMatching(matches, accounts[a]).None?
  }

  predicate Rejected(usable: Option<bool>) {
    usable == Some(false)
  }

  function Check(matches: string -> bool, accounts: seq<seq<Usage>>): Option<QuotaCheck> {
    match BestMatching(matches, Concat(accounts))
    case None => None
    case Some(best) =>
      Some(if Missing(matches, accounts) && Rejected(best.usable) then QuotaCheck(best.remaining, Some(true), "")
           else QuotaCheck(best.remaining, best.usable, best.reason))
  }

  method BestAccountCheck(matches: string -> bool, accounts: seq<seq<Usage>>) returns (r: Option<QuotaCheck>)
    ensures r == Check(matches, accounts)
  {
    hide BestMatching;
    var all := [];
    var missing := false;
    for a := 0 to |accounts|
      invariant all == Concat(accounts[..a])
      invariant missing <==> exists b :: 0 <= b < a && BestMatching(matches, accounts[b]).None?
    {
      assert accounts[..a + 1][..a] == accounts[..a];
      var one := BestMatchingUsage(matches, accounts[a]);
      if one.None? { missing := true; }
      all := all + accounts[a];
    }
    assert accounts[..|accounts|] == accounts;
    var best := BestMatchingUsage(matches, all);
    if best.None? { return None; }
    var check := QuotaCheck(best.value.remaining, best.value.usable, best.value.reason);
    if missing && best.value.usable == Some(false) {
      check := check.(usable := Some(true), reason := "");
    }
    return Some(check);
  }

  // ----- What the choice means -----

  lemma BetterIsRanking()
    ensures Ranking(Better)
  {
  }

  /** The choice is a regular entry for the model; no other one beats it and it beats every earlier one. */
  lemma {:induction false} BestMatchingIsFirstMaximum(matches: string -> bool, usages: seq<Usage>) returns (i: nat)
    requires BestMatching(matches, usages).Some?
    ensures i < |usages| && BestMatching(matches, usages) == Some(usages[i]) && Matches(matches, usages[i])
    ensures forall j :: 0 <= j < |usages| && Matches(matches, usages[j]) ==> !Better(usages[j], usages[i])
    ensures forall j :: 0 <= j < i && Matches(matches, usages[j]) ==> Better(usages[i], usages[j])
  {
    var n := |usages| - 1;
    var most := usages[..n];
    var last := usages[n];
    if BestMatching(matches, most).Some? {
      i := BestMatchingIsFirstMaximum(matches, most);
      BetterIsRanking();
      if Matches(matches, last) && Better(last, usages[i]) {
        forall j | 0 <= j < n && Matches(matches, usages[j]) ensures Better(last, usages[j]) && !Better(usages[j], last) {
          assert !Better(most[j], most[i]);
        }
        i := n;
      } else {
        forall j | 0 <= j < n && Matches(matches, usages[j])
          ensures !Better(usages[j], usages[i]) && (j < i ==> Better(usages[i], usages[j])) {
          assert most[j] == usages[j];
        }
      }
    } else {
      i := n;
      NoneMatching(matches, most);
    }
  }

  lemma {:induction false} NoneMatching(matches: string -> bool, usages: seq<Usage>)
    requires BestMatching(matches, usages).None?
    ensures forall j :: 0 <= j < |usages| ==> !Matches(matches, usages[j])
  {
    if usages != [] { NoneMatching(matches, usages[..|usages| - 1]); }
  }

  lemma {:induction false} MatchingConcat(matches: string -> bool, a: seq<Usage>, b: seq<Usage>)
    ensures Matching(matches, a + b) == Matching(matches, a) + Matching(matches, b)
    decreases |b|
  {
    if b == [] {
      assert a + b == a;
    } else {
      var n := |b| - 1;
      assert (a + b)[..|a + b| - 1] == a + b[..n];
      MatchingConcat(matches, a, b[..n]);
    }
  }

  /** The winner of each account that has one, in account order. */
  function Winners(matches: string -> bool, accounts: seq<seq<Usage>>): seq<Usage> {
    if accounts == [] then []
    else
      var rest := Winners(matches, accounts[..|accounts| - 1]);
      match BestMatching(matches, accounts[|accounts| - 1])
      case Some(u) => rest + [u]
      case None => rest
  }

  /** Choosing over the entries of all accounts is choosing among the winners of the accounts. */
  lemma {:induction false} ChoiceIsAmongWinners(matches: string -> bool, accounts: seq<seq<Usage>>)
    ensures BestMatching(matches, Concat(accounts)) == Best(Better, Winners(matches, accounts))
  {
    if accounts != [] {
      var n := |accounts| - 1;
      ChoiceIsAmongWinners(matches, accounts[..n]);
      BetterIsRanking();
      MatchingConcat(matches, Concat(accounts[..n]), accounts[n]);
      BestConcat(Better, Matching(matches, Concat(accounts[..n])), Matching(matches, accounts[n]));
      if BestMatching(matches, accounts[n]).Some? {
        BestSnoc(Better, Winners(matches, accounts[..n]), BestMatching(matches, accounts[n]).value);
      }
    }
  }

  // ----- The verdict over all accounts -----

  ghost predicate NoneAccepted(matches: string -> bool, accounts: seq<seq<Usage>>) {
    forall a, i :: 0 <= a < |accounts| && 0 <= i < |accounts[a]| && Matches(matches, accounts[a][i]) ==>
      !Accepted(accounts[a][i])
  }

  /** The quota policy gave a verdict on every entry for the model. */
  ghost predicate AllJudged(matches: string -> bool, accounts: seq<seq<Usage>>) {
    forall a, i :: 0 <= a < |accounts| && 0 <= i < |accounts[a]| && Matches(matches, accounts[a][i]) ==>
      accounts[a][i].usable.Some?
  }

  lemma {:induction false} ConcatContains(accounts: seq<seq<Usage>>, a: nat, i: nat) returns (j: nat)
    requires a < |accounts| && i < |accounts[a]|
    ensures j < |Concat(accounts)| && Concat(accounts)[j] == accounts[a][i]
  {
    var n := |accounts| - 1;
    if a == n {
      j := |Concat(accounts[..n])| + i;
    } else {
      j := ConcatContains(accounts[..n], a, i);
    }
  }

  lemma {:induction false} ConcatComesFrom(accounts: seq<seq<Usage>>, j: nat) returns (a: nat, i: nat)
    requires j < |Concat(accounts)|
    ensures a < |accounts| && i < |accounts[a]| && Concat(accounts)[j] == accounts[a][i]
  {
    var n := |accounts| - 1;
    var before := Concat(accounts[..n]);
    if j < |before| {
      a, i := ConcatComesFrom(accounts[..n], j);
    } else {
      a, i := n, j - |before|;
    }
  }

  /** The target is reported unusable only if every account has an entry for the model and none is accepted. */
  lemma UnusableVerdict(matches: string -> bool, accounts: seq<seq<Usage>>)
    requires Check(matches, accounts).Some? && Rejected(Check(matches, accounts).value.usable)
    ensures !Missing(matches, accounts) && NoneAccepted(matches, accounts)
  {
    hide BestMatching, Missing;
    var all := Concat(accounts);
    var best := BestMatchingIsFirstMaximum(matches, all);
    forall a, i | 0 <= a < |accounts| && 0 <= i < |accounts[a]| && Matches(matches, accounts[a][i])
      ensures !Accepted(accounts[a][i]) {
      var j := ConcatContains(accounts, a, i);
    }
  }

  /** Where the policy judged every entry, the target is unusable exactly then. */
  lemma UnusableExactly(matches: string -> bool, accounts: seq<seq<Usage>>)
    requires AllJudged(matches, accounts) && Check(matches, accounts).Some?
    ensures Rejected(Check(matches, accounts).value.usable) <==>
            !Missing(matches, accounts) && NoneAccepted(matches, accounts)
  {
    hide BestMatching, Missing;
    if Rejected(Check(matches, accounts).value.usable) {
      UnusableVerdict(matches, accounts);
    } else if !Missing(matches, accounts) {
      var best := BestMatchingIsFirstMaximum(matches, Concat(accounts));
      var a, i := ConcatComesFrom(accounts, best);
      assert Matches(matches, accounts[a][i]);
      assert accounts[a][i].usable.value;
    }
  }

  /** Without any account there is nothing to report; with one that has an entry there is. */
  lemma {:induction false} FoundExactly(matches: string -> bool, accounts: seq<seq<Usage>>)
    ensures Check(matches, accounts).Some? <==>
            exists a :: 0 <= a < |accounts| && BestMatching(matches, accounts[a]).Some?
  {
    if accounts != [] {
      var n := |accounts| - 1;
      FoundExactly(matches, accounts[..n]);
      MatchingConcat(matches, Concat(accounts[..n]), accounts[n]);
      assert forall a :: 0 <= a < n ==> accounts[..n][a] == accounts[a];
    }
  }

  /** The chosen entry in plain words: if any entry for the model is accepted, so is it; no entry with the same verdict
      has more remaining, and an earlier one with as much would have been chosen. */
  lemma BestEntryMeans(matches: string -> bool, usages: seq<Usage>) returns (i: nat)
    requires BestMatching(matches, usages).Some?
    ensures i < |usages| && BestMatching(matches, usages) == Some(usages[i])
    ensures !usages[i].statusOnly && matches(usages[i].model)
    ensures forall j :: 0 <= j < |usages| && !usages[j].statusOnly && matches(usages[j].model) ==>
              && (usages[j].usable == Some(true) ==> usages[i].usable == Some(true))
              && ((usages[j].usable == Some(true) <==> usages[i].usable == Some(true)) ==>
                    usages[j].remaining <= usages[i].remaining && (j < i ==> usages[j].remaining < usages[i].remaining))
  {
    hide BestMatching;
    i := BestMatchingIsFirstMaximum(matches, usages);
    forall j | 0 <= j < |usages| && Matches(matches, usages[j])
      ensures !Better(usages[j], usages[i]) && (j < i ==> Better(usages[i], usages[j])) { }
  }

  /** What is reported: the remaining fraction of the chosen entry, and its verdict with its reason; but where the verdict
      is a rejection and some account has no entry for the model, the target is usable, for no reason. */
  lemma CheckReports(matches: string -> bool, accounts: seq<seq<Usage>>)
    requires Check(matches, accounts).Some?
    ensures var r := Check(matches, accounts).value; var best := BestMatching(matches, Concat(accounts));
      && best.Some? && r.remaining == best.value.remaining
      && (best.value.usable == Some(false)
          && (exists a :: 0 <= a < |accounts| && NoEntry(matches, accounts[a])) ==>
            r.usable == Some(true) && r.reason == "")
      && (best.value.usable != Some(false)
          || (forall a :: 0 <= a < |accounts| ==> !NoEntry(matches, accounts[a])) ==>
            r.usable == best.value.usable && r.reason == best.value.reason)
  {
    hide BestMatching;
    forall a | 0 <= a < |accounts| ensures NoEntry(matches, accounts[a]) <==> BestMatching(matches, accounts[a]).None? {
      if BestMatching(matches, accounts[a]).None? {
        NoneMatching(matches, accounts[a]);
      } else {
        var i := BestMatchingIsFirstMaximum(matches, accounts[a]);
      }
    }
  }

  /** An account without a regular entry for the model. */
  predicate NoEntry(matches: string -> bool, usages: seq<Usage>) {
    forall i :: 0 <= i < |usages| ==> usages[i].statusOnly || !matches(usages[i].model)
  }
}
