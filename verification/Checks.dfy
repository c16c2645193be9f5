/** Check results, counted for each host and for the cluster. */
module Checks {
  datatype CheckResult = Passing | Warning | Critical | OtherResult(name: string)

  /** The result of each check on each host. */
  type Results = map<string, map<string, CheckResult>>

  datatype Aggregated = Aggregated(passing: nat, warning: nat, critical: nat)

  datatype Health = CheckCritical | CheckWarning | CheckPassing | CheckUndefined

  function Show(a: Aggregated): Health {
    if a.critical > 0 then CheckCritical
    else if a.warning > 0 then CheckWarning
    else if a.passing > 0 then CheckPassing
    else CheckUndefined
  }

  /** A check on a host. */
  datatype Pair = Pair(check: string, host: string)

  function Pairs(results: Results): set<Pair> {
    set check, host | check in results && host in results[check] :: Pair(check, host)
  }

  function OnHost(pairs: set<Pair>, host: string): set<Pair> {
    set p | p in pairs && p.host == host
  }

  function With(results: Results, pairs: set<Pair>, r: CheckResult): set<Pair> {
    set p | p in pairs && p.check in results && p.host in results[p.check] && results[p.check][p.host] == r
  }

  /** How many of the pairs have each result. */
  function Tally(results: Results, pairs: set<Pair>): Aggregated {
    Aggregated(|With(results, pairs, Passing)|, |With(results, pairs, Warning)|, |With(results, pairs, Critical)|)
  }

  function Plus(a: Aggregated, b: Aggregated): Aggregated {
    Aggregated(a.passing + b.passing, a.warning + b.warning, a.critical + b.critical)
  }

  function Counted(a: Aggregated, r: CheckResult): Aggregated {
    match r
    case Critical => a.(critical := a.critical + 1)
    case Warning => a.(warning := a.warning + 1)
    case Passing => a.(passing := a.passing + 1)
    case OtherResult(_) => a
  }

  lemma WithOfDisjoint(results: Results, a: set<Pair>, b: set<Pair>, r: CheckResult)
    requires a !! b
    ensures |With(results, a + b, r)| == |With(results, a, r)| + |With(results, b, r)|
  {
    assert With(results, a + b, r) == With(results, a, r) + With(results, b, r);
    assert With(results, a, r) !! With(results, b, r);
  }

  lemma TallyOfDisjoint(results: Results, a: set<Pair>, b: set<Pair>)
    requires a !! b
    ensures Tally(results, a + b) == Plus(Tally(results, a), Tally(results, b))
  {
    WithOfDisjoint(results, a, b, Passing);
    WithOfDisjoint(results, a, b, Warning);
    WithOfDisjoint(results, a, b, Critical);
  }

  lemma WithOfOne(results: Results, p: Pair, r: CheckResult)
    requires p in Pairs(results)
    ensures With(results, {p}, r) == if results[p.check][p.host] == r then {p} else {}
  {
  }

  lemma TallyOfOneMore(results: Results, pairs: set<Pair>, p: Pair)
    requires p !in pairs && p in Pairs(results)
    ensures Tally(results, pairs + {p}) == Counted(Tally(results, pairs), results[p.check][p.host])
  {
    TallyOfDisjoint(results, pairs, {p});
    WithOfOne(results, p, Passing);
    WithOfOne(results, p, Warning);
    WithOfOne(results, p, Critical);
  }

  lemma TallyOfNone(results: Results)
    ensures Tally(results, {}) == Aggregated(0, 0, 0)
  {
    assert forall r :: With(results, {}, r) == {};
  }

  predicate IsTallyAt(results: Results, byHost: map<string, Aggregated>, pairs: set<Pair>, host: string) {
    if OnHost(pairs, host) == {} then host !in byHost
    else host in byHost && byHost[host] == Tally(results, OnHost(pairs, host))
  }

  ghost predicate IsTally(results: Results, byHost: map<string, Aggregated>, pairs: set<Pair>) {
    forall host :: IsTallyAt(results, byHost, pairs, host)
  }

  lemma OnHostStep(pairs: set<Pair>, p: Pair, host: string)
    ensures OnHost(pairs + {p}, host) == if host == p.host then OnHost(pairs, host) + {p} else OnHost(pairs, host)
  {
  }

  lemma TallyStep(results: Results, byHost: map<string, Aggregated>, pairs: set<Pair>, p: Pair)
    requires IsTally(results, byHost, pairs) && p !in pairs && p in Pairs(results)
    ensures var before := if p.host in byHost then byHost[p.host] else Aggregated(0, 0, 0);
      IsTally(results, byHost[p.host := Counted(before, results[p.check][p.host])], pairs + {p})
  {
    var before := if p.host in byHost then byHost[p.host] else Aggregated(0, 0, 0);
    var byHost' := byHost[p.host := Counted(before, results[p.check][p.host])];
    assert before == Tally(results, OnHost(pairs, p.host)) by {
      TallyOfNone(results);
      assert IsTallyAt(results, byHost, pairs, p.host);
    }
    TallyOfOneMore(results, OnHost(pairs, p.host), p);
    forall host ensures IsTallyAt(results, byHost', pairs + {p}, host) {
      assert IsTallyAt(results, byHost, pairs, host);
      OnHostStep(pairs, p, host);
      assert host == p.host ==> p in OnHost(pairs + {p}, host);
    }
  }

  /** Exactly the hosts with results, each with the numbers of its passing, warning and critical ones. */
  method GetAggregatedChecksResultByHost(results: Results) returns (byHost: map<string, Aggregated>)
    ensures IsTally(results, byHost, Pairs(results))
  {
    byHost := map[];
    var checks := results.Keys;
    ghost var seen: set<Pair> := {};
    while checks != {}
      invariant checks <= results.Keys
      invariant seen == set p | p in Pairs(results) && p.check !in checks
      invariant IsTally(results, byHost, seen)
      decreases checks
    {
      var check :| check in checks;
      var hosts := results[check].Keys;
      while hosts != {}
        invariant hosts <= results[check].Keys
        invariant seen == set p | p in Pairs(results) && (p.check !in checks || (p.check == check && p.host !in hosts))
        invariant IsTally(results, byHost, seen)
        decreases hosts
      {
        var host :| host in hosts;
        TallyStep(results, byHost, seen, Pair(check, host));
        ghost var counted :=
          Counted(if host in byHost then byHost[host] else Aggregated(0, 0, 0), results[check][host]);
        ghost var expected := byHost[host := counted];
        if host !in byHost {
          byHost := byHost[host := Aggregated(0, 0, 0)];
        }
        byHost := byHost[host := Counted(byHost[host], results[check][host])];
        assert byHost == expected;
        seen := seen + {Pair(check, host)};
        hosts := hosts - {host};
      }
      checks := checks - {check};
    }
    assert seen == Pairs(results);
  }

  function NotOn(pairs: set<Pair>, hosts: set<string>): set<Pair> {
    set p | p in pairs && p.host !in hosts
  }

  lemma HostLeaves(pairs: set<Pair>, hosts: set<string>, host: string)
    requires host in hosts
    ensures NotOn(pairs, hosts - {host}) == NotOn(pairs, hosts) + OnHost(pairs, host)
    ensures NotOn(pairs, hosts) !! OnHost(pairs, host)
  {
  }

  lemma OneMoreHost(results: Results, hosts: set<string>, host: string)
    requires host in hosts
    ensures Tally(results, NotOn(Pairs(results), hosts - {host}))
         == Plus(Tally(results, NotOn(Pairs(results), hosts)), Tally(results, OnHost(Pairs(results), host)))
  {
    var pairs := Pairs(results);
    HostLeaves(pairs, hosts, host);
    TallyOfDisjoint(results, NotOn(pairs, hosts), OnHost(pairs, host));
  }

  lemma AllHostsAreTallied(results: Results, byHost: map<string, Aggregated>)
    requires IsTally(results, byHost, Pairs(results))
    ensures NotOn(Pairs(results), byHost.Keys) == {} && NotOn(Pairs(results), {}) == Pairs(results)
  {
    forall p | p in Pairs(results) ensures p.host in byHost {
      assert p in OnHost(Pairs(results), p.host) && IsTallyAt(results, byHost, Pairs(results), p.host);
    }
  }

  /** The cluster's numbers are those of all pairs of check and host. */
  method GetAggregatedChecksResultByCluster(results: Results) returns (total: Aggregated)
    ensures total == Tally(results, Pairs(results))
  {
    var byHost := GetAggregatedChecksResultByHost(results);
    total := Aggregated(0, 0, 0);
    var hosts := byHost.Keys;
    AllHostsAreTallied(results, byHost);
    TallyOfNone(results);
    while hosts != {}
      invariant hosts <= byHost.Keys
      invariant total == Tally(results, NotOn(Pairs(results), hosts))
      decreases hosts
    {
      var host :| host in hosts;
      assert IsTallyAt(results, byHost, Pairs(results), host);
      OneMoreHost(results, hosts, host);
      total := Plus(total, byHost[host]);
      hosts := hosts - {host};
    }
  }

  predicate HasResult(results: Results, r: CheckResult) {
    exists check, host :: check in results && host in results[check] && results[check][host] == r
  }

  lemma CountedIfPresent(results: Results, r: CheckResult)
    ensures |With(results, Pairs(results), r)| > 0 <==> HasResult(results, r)
  {
    if check, host :| check in results && host in results[check] && results[check][host] == r {
      assert Pair(check, host) in With(results, Pairs(results), r);
    }
    if |With(results, Pairs(results), r)| > 0 {
      var p :| p in With(results, Pairs(results), r);
    }
  }

  /** The health that is shown is the worst result that there is. */
  lemma HealthIsWorstResult(results: Results)
    ensures Show(Tally(results, Pairs(results))) ==
      if HasResult(results, Critical) then CheckCritical
      else if HasResult(results, Warning) then CheckWarning
      else if HasResult(results, Passing) then CheckPassing
      else CheckUndefined
  {
    CountedIfPresent(results, Critical);
    CountedIfPresent(results, Warning);
    CountedIfPresent(results, Passing);
  }
}
