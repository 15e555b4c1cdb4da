/**
 The xDS resolver: which virtual host serves a domain, and which clusters stay
 configured while calls still refer to them.
 */
module VirtualHosts {
  import opened Common

  datatype MatchType = EXACT_MATCH | SUFFIX_MATCH | PREFIX_MATCH | UNIVERSE_MATCH | INVALID_MATCH {
    /** Better match types have smaller values. */
    function Value(): nat {
      match this
      case EXACT_MATCH => 0
      case SUFFIX_MATCH => 1
      case PREFIX_MATCH => 2
      case UNIVERSE_MATCH => 3
      case INVALID_MATCH => 4
    }
  }

  function DomainPatternMatchType(domainPattern: string): MatchType {
    if |domainPattern| == 0 then INVALID_MATCH
    else if '*' !in domainPattern then EXACT_MATCH
    else if domainPattern == "*" then UNIVERSE_MATCH
    else if domainPattern[0] == '*' then SUFFIX_MATCH
    else if domainPattern[|domainPattern| - 1] == '*' then PREFIX_MATCH
    else INVALID_MATCH
  }

  predicate StartsWith(s: string, prefix: string) { |prefix| <= |s| && s[..|prefix|] == prefix }

  predicate EndsWith(s: string, suffix: string) { |suffix| <= |s| && s[|s| - |suffix|..] == suffix }

  predicate DomainMatch(matchType: MatchType, domainPattern: string, expectedHostName: string)
    requires matchType == SUFFIX_MATCH || matchType == PREFIX_MATCH ==> |domainPattern| > 0
  {
    match matchType
    case EXACT_MATCH => expectedHostName == domainPattern
    case SUFFIX_MATCH => EndsWith(expectedHostName, domainPattern[1..])
    case PREFIX_MATCH => StartsWith(expectedHostName, domainPattern[..|domainPattern| - 1])
    case UNIVERSE_MATCH => true
    case INVALID_MATCH => false
  }

  function Concat(a: string, b: string): string { a + b }

  ghost predicate Extends(s: string, prefix: string) { exists text :: s == Concat(prefix, text) }

  /** How a pattern's star is meant: any text in its place. */
  ghost predicate Fits(domainPattern: string, domain: string) {
    domainPattern != [] &&
    if '*' !in domainPattern then domain == domainPattern
    else if domainPattern[0] == '*' then exists text :: domain == Concat(text, domainPattern[1..])
    else domainPattern[|domainPattern| - 1] == '*' && Extends(domain, domainPattern[..|domainPattern| - 1])
  }

  predicate Matches(domainPattern: string, domain: string) {
    DomainMatch(DomainPatternMatchType(domainPattern), domainPattern, domain)
  }

  lemma EndsWithIsConcat(s: string, suffix: string)
    ensures EndsWith(s, suffix) <==> exists text :: s == Concat(text, suffix)
  {
    if EndsWith(s, suffix) {
      assert s == Concat(s[..|s| - |suffix|], suffix);
    }
    if text :| s == Concat(text, suffix) {
      assert s[|s| - |suffix|..] == suffix;
    }
  }

  lemma StartsWithIsConcat(s: string, prefix: string)
    ensures StartsWith(s, prefix) <==> Extends(s, prefix)
  {
    if StartsWith(s, prefix) {
      assert s == Concat(prefix, s[|prefix|..]);
    }
  }

  /** A pattern matches exactly the domains its star can stand for. */
  lemma MatchesIsFits(domainPattern: string, domain: string)
    ensures Matches(domainPattern, domain) <==> Fits(domainPattern, domain)
  {
    if domainPattern != [] {
      EndsWithIsConcat(domain, domainPattern[1..]);
      StartsWithIsConcat(domain, domainPattern[..|domainPattern| - 1]);
      if domainPattern == "*" {
        assert domain == Concat(domain, domainPattern[1..]);
      }
    }
  }

  /** A better type, or the same type and a longer pattern. */
  predicate Better(p: string, q: string) {
    var s, t := DomainPatternMatchType(p), DomainPatternMatchType(q);
    s.Value() < t.Value() || (s == t && |p| > |q|)
  }

  datatype Route = ClusterHeader | Cluster(cluster: string) | WeightedClusters(clusters: seq<string>) | OtherSpecifier

  datatype VirtualHost = VirtualHost(domains: seq<string>, routes: seq<Route>)

  /** Pattern `b` of virtual host `a` comes before pattern `m` of host `n`. */
  predicate Seen(hosts: seq<VirtualHost>, n: nat, m: nat, a: nat, b: nat) {
    a < |hosts| && b < |hosts[a].domains| && (a < n || (a == n && b < m))
  }

  ghost predicate NoneSeen(hosts: seq<VirtualHost>, domain: string, n: nat, m: nat) {
    forall a: nat, b: nat | Seen(hosts, n, m, a, b) :: !Matches(hosts[a].domains[b], domain)
  }

  /** Pattern `j` of host `i` is a best match so far, and better than any match
      in the hosts before `i`. */
  ghost predicate BestSeen(hosts: seq<VirtualHost>, domain: string, n: nat, m: nat, i: nat, j: nat) {
    && Seen(hosts, n, m, i, j) && Matches(hosts[i].domains[j], domain)
    && forall a: nat, b: nat | Seen(hosts, n, m, a, b) && Matches(hosts[a].domains[b], domain) ::
         && !Better(hosts[a].domains[b], hosts[i].domains[j])
         && (a < i ==> Better(hosts[i].domains[j], hosts[a].domains[b]))
  }

  /** The first host holding a matching pattern that no other match betters. */
  ghost predicate IsTarget(hosts: seq<VirtualHost>, domain: string, i: nat) {
    exists j: nat :: BestSeen(hosts, domain, |hosts|, 0, i, j)
  }

  lemma TargetIsUnique(hosts: seq<VirtualHost>, domain: string, i: nat, k: nat)
    requires IsTarget(hosts, domain, i) && IsTarget(hosts, domain, k)
    ensures i == k
  {
  }

  datatype Search = Search(targetVhost: Option<nat>, bestMatchType: MatchType, longestMatch: nat)

  /** The variables of the search describe the best match among the patterns seen. */
  ghost predicate Found(hosts: seq<VirtualHost>, domain: string, n: nat, m: nat, s: Search) {
    match s.targetVhost
    case None => NoneSeen(hosts, domain, n, m) && s.bestMatchType == INVALID_MATCH && s.longestMatch == 0
    case Some(i) => exists j: nat :: && BestSeen(hosts, domain, n, m, i, j)
                                     && s.bestMatchType == DomainPatternMatchType(hosts[i].domains[j])
                                     && s.longestMatch == |hosts[i].domains[j]|
  }

  /** Does the pattern improve on the best match? */
  predicate Improves(domainPattern: string, domain: string, s: Search) {
    var matchType := DomainPatternMatchType(domainPattern);
    && matchType.Value() <= s.bestMatchType.Value()
    && !(matchType == s.bestMatchType && |domainPattern| <= s.longestMatch)
    && DomainMatch(matchType, domainPattern, domain)
  }

  lemma OneMorePattern(hosts: seq<VirtualHost>, domain: string, n: nat, m: nat, s: Search)
    requires n < |hosts| && m < |hosts[n].domains| && Found(hosts, domain, n, m, s)
    ensures var p := hosts[n].domains[m];
            Found(hosts, domain, n, m + 1,
                  if Improves(p, domain, s) then Search(Some(n), DomainPatternMatchType(p), |p|) else s)
  {
  }

  lemma NextHost(hosts: seq<VirtualHost>, domain: string, n: nat, s: Search)
    requires n < |hosts| && Found(hosts, domain, n, |hosts[n].domains|, s)
    ensures Found(hosts, domain, n + 1, 0, s)
  {
  }

  /** Once a pattern matches exactly, no later one can be a better match. */
  lemma ExactIsFinal(hosts: seq<VirtualHost>, domain: string, n: nat, m: nat, s: Search)
    requires n < |hosts| && m <= |hosts[n].domains| && Found(hosts, domain, n, m, s) && s.bestMatchType == EXACT_MATCH
    ensures IsTarget(hosts, domain, s.targetVhost.value)
  {
    var i := s.targetVhost.value;
    var j: nat :| BestSeen(hosts, domain, n, m, i, j) && DomainPatternMatchType(hosts[i].domains[j]) == EXACT_MATCH;
    assert BestSeen(hosts, domain, |hosts|, 0, i, j);
  }

  method FindVirtualHostForDomain(hosts: seq<VirtualHost>, domain: string) returns (targetVhost: Option<nat>)
    ensures targetVhost.Some? ==> IsTarget(hosts, domain, targetVhost.value)
    ensures targetVhost.None? <==> NoneSeen(hosts, domain, |hosts|, 0)
  {
    targetVhost := None;
    var bestMatchType := INVALID_MATCH;
    var longestMatch: nat := 0;
    for n := 0 to |hosts|
      invariant Found(hosts, domain, n, 0, Search(targetVhost, bestMatchType, longestMatch))
    {
      for m := 0 to |hosts[n].domains|
        invariant Found(hosts, domain, n, m, Search(targetVhost, bestMatchType, longestMatch))
      {
        var domainPattern := hosts[n].domains[m];
        var matchType := DomainPatternMatchType(domainPattern);
        OneMorePattern(hosts, domain, n, m, Search(targetVhost, bestMatchType, longestMatch));
        if matchType.Value() > bestMatchType.Value() {
          continue;
        }
        if matchType == bestMatchType && |domainPattern| <= longestMatch {
          continue;
        }
        if DomainMatch(matchType, domainPattern, domain) {
          targetVhost := Some(n);
          bestMatchType := matchType;
          longestMatch := |domainPattern|;
        }
        if bestMatchType == EXACT_MATCH {
          ExactIsFinal(hosts, domain, n, m + 1, Search(targetVhost, bestMatchType, longestMatch));
          return;
        }
      }
      NextHost(hosts, domain, n, Search(targetVhost, bestMatchType, longestMatch));
    }
  }
}

/**
 The clusters a resolver keeps configured: those of the last route configuration
 it applied and those that calls in flight still refer to. A configuration is
 applied only after the wait for the hash function, so applications queue up.
 */
module XdsResolvers {
  import opened Common
  import opened VirtualHosts

  datatype ClusterRef = ClusterRef(inLastConfig: bool, refCount: int)

  datatype RouteConfig = RouteConfig(virtualHosts: seq<VirtualHost>)

  /** The clusters of a route that the resolver can act on. */
  function RouteClusters(r: Route): set<string> {
    match r
    case Cluster(c) => {c}
    case WeightedClusters(cs) => set c | c in cs
    case _ => {}
  }

  ghost predicate InConfig(h: VirtualHost, c: string) {
    exists r | r in h.routes :: c in RouteClusters(r)
  }

  method ConfigClusters(h: VirtualHost) returns (all: set<string>)
    ensures forall c :: c in all <==> InConfig(h, c)
  {
    all := {};
    for i := 0 to |h.routes|
      invariant forall c :: c in all <==> exists r | r in h.routes[..i] :: c in RouteClusters(r)
    {
      all := all + RouteClusters(h.routes[i]);
      assert h.routes[..i + 1] == h.routes[..i] + [h.routes[i]];
    }
    assert h.routes[..|h.routes|] == h.routes;
  }

  // ----- The reference table as a value -----

  /** Marks the clusters that are no longer configured, dropping the unused ones,
      and adds the configured ones. */
  function Applied(table: map<string, ClusterRef>, clusters: set<string>): map<string, ClusterRef> {
    map c | c in table.Keys + clusters && (c in clusters || table[c].refCount != 0) ::
      ClusterRef(c in clusters, if c in table then table[c].refCount else 0)
  }

  /** How many calls that selected each cluster have not yet committed. */
  type Outstanding = map<string, nat>

  function Calls(o: Outstanding, c: string): nat { if c in o then o[c] else 0 }

  ghost predicate TableOk(table: map<string, ClusterRef>, lastClusters: set<string>, o: Outstanding) {
    && (forall c | c in table :: table[c] == ClusterRef(c in lastClusters, Calls(o, c)))
    && (forall c :: c in table <==> c in lastClusters || Calls(o, c) > 0)
  }

  lemma AppliedOk(table: map<string, ClusterRef>, lastClusters: set<string>, o: Outstanding, clusters: set<string>)
    requires TableOk(table, lastClusters, o)
    ensures TableOk(Applied(table, clusters), clusters, o)
  {
  }

  lemma SelectedOk(table: map<string, ClusterRef>, lastClusters: set<string>, o: Outstanding, c: string)
    requires TableOk(table, lastClusters, o) && c in table
    ensures TableOk(table[c := table[c].(refCount := table[c].refCount + 1)], lastClusters, o[c := Calls(o, c) + 1])
  {
  }

  lemma CommittedOk(table: map<string, ClusterRef>, lastClusters: set<string>, o: Outstanding, c: string)
    requires TableOk(table, lastClusters, o) && Calls(o, c) > 0
    ensures c in table
    ensures var left := table[c].(refCount := table[c].refCount - 1);
            TableOk(if !left.inLastConfig && left.refCount == 0 then table - {c} else table[c := left],
                    lastClusters, o[c := (Calls(o, c) - 1) as nat])
  {
  }

  class XdsResolver {
    const hostDomain: string
    var clusterRefcounts: map<string, ClusterRef>
    var latestRouteConfig: Option<RouteConfig>
    /** Calls of handleRouteConfig still waiting for the hash function. */
    var waiting: seq<RouteConfig>
    /** The clusters of the config selector handed out last. */
    var selectorClusters: set<string>
    /** The children of the cluster_manager config published last. */
    var published: set<string>
    ghost var outstanding: Outstanding
    /** Uncommitted selections, by older config selectors, of clusters that were no
        longer in the table: they hold no reference. */
    ghost var strays: Outstanding
    /** The route configuration received last. */
    ghost var newest: Option<RouteConfig>

    /** Counts are the uncommitted selections; the table is exactly the clusters
        of the last applied configuration and those with uncommitted selections;
        and all of it is published. */
    ghost predicate Valid()
      reads this
    {
      && TableOk(clusterRefcounts, selectorClusters, outstanding) && clusterRefcounts.Keys <= published
      && (latestRouteConfig.None? ==> selectorClusters == {} && outstanding == map[])
    }

    /** What will have been applied when nothing waits any more. */
    ghost function Final(): Option<RouteConfig>
      reads this
    {
      if waiting == [] then latestRouteConfig else Some(waiting[|waiting| - 1])
    }

    /** The queue ends in another configuration than `latest`. */
    predicate Waits(latest: RouteConfig)
      reads this
    {
      waiting != [] && waiting[|waiting| - 1] != latest
    }

    constructor (hostDomain: string)
      ensures Valid() && Final() == newest == None
      ensures clusterRefcounts == map[] && waiting == [] && outstanding == map[] && selectorClusters == {}
      ensures strays == map[]
      ensures this.hostDomain == hostDomain
    {
      this.hostDomain := hostDomain;
      clusterRefcounts, latestRouteConfig, waiting, selectorClusters, published := map[], None, [], {}, {};
      outstanding, strays, newest := map[], map[], None;
    }

    /** A watcher delivers a configuration. */
    method RouteConfigReceived(routeConfig: RouteConfig)
      modifies this`waiting, this`newest
      ensures waiting == old(waiting) + [routeConfig] && newest == Some(routeConfig) && Final() == newest
    {
      waiting := waiting + [routeConfig];
      newest := Some(routeConfig);
    }

    /** handleRouteConfig goes on after its wait. */
    method ApplyRouteConfig() returns (resolved: bool)
      requires Valid() && waiting != []
      modifies this`waiting, this`latestRouteConfig, this`clusterRefcounts, this`selectorClusters, this`published
      ensures Valid() && Final() == old(Final())
      ensures waiting == old(waiting)[1..] && latestRouteConfig == Some(old(waiting)[0])
      ensures var hosts := old(waiting)[0].virtualHosts;
              if NoneSeen(hosts, hostDomain, |hosts|, 0) then
                && !resolved
                && (clusterRefcounts, selectorClusters, published)
                   == old((clusterRefcounts, selectorClusters, published))
              else
                && resolved && published == clusterRefcounts.Keys
                && clusterRefcounts == Applied(old(clusterRefcounts), selectorClusters)
                && exists i: nat :: i < |hosts| && IsTarget(hosts, hostDomain, i)
                     && forall c :: c in selectorClusters <==> InConfig(hosts[i], c)
    {
      var routeConfig := waiting[0];
      waiting := waiting[1..];
      latestRouteConfig := Some(routeConfig);
      var virtualHost := FindVirtualHostForDomain(routeConfig.virtualHosts, hostDomain);
      if virtualHost.None? {
        return false;
      }
      TargetInList(routeConfig.virtualHosts, hostDomain, virtualHost.value);
      var allConfigClusters := ConfigClusters(routeConfig.virtualHosts[virtualHost.value]);
      AppliedOk(clusterRefcounts, selectorClusters, outstanding, allConfigClusters);
      MarkClusters(allConfigClusters);
      selectorClusters := allConfigClusters;
      published := clusterRefcounts.Keys;
      return true;
    }

    method MarkClusters(allConfigClusters: set<string>)
      modifies this`clusterRefcounts
      ensures clusterRefcounts == Applied(old(clusterRefcounts), allConfigClusters)
    {
      var names := clusterRefcounts.Keys;
      while names != {}
        invariant names <= old(clusterRefcounts).Keys
        invariant forall c | c in old(clusterRefcounts) :: var r := old(clusterRefcounts)[c];
                    if c in names || c in allConfigClusters then c in clusterRefcounts && clusterRefcounts[c] == r
                    else if r.refCount == 0 then c !in clusterRefcounts
                    else c in clusterRefcounts && clusterRefcounts[c] == ClusterRef(false, r.refCount)
        invariant forall c | c in clusterRefcounts :: c in old(clusterRefcounts)
      {
        var name :| name in names;
        names := names - {name};
        if name !in allConfigClusters {
          var refCount := clusterRefcounts[name];
          clusterRefcounts := clusterRefcounts[name := ClusterRef(false, refCount.refCount)];
          if refCount.refCount == 0 {
            clusterRefcounts := clusterRefcounts - {name};
          }
        }
      }
      ghost var marked := clusterRefcounts;
      var added := allConfigClusters;
      while added != {}
        invariant added <= allConfigClusters
        invariant forall c | c !in allConfigClusters || c in added ::
                    if c in marked then c in clusterRefcounts && clusterRefcounts[c] == marked[c]
                    else c !in clusterRefcounts
        invariant forall c | c in allConfigClusters && c !in added ::
                    c in clusterRefcounts
                    && clusterRefcounts[c] == ClusterRef(true, if c in marked then marked[c].refCount else 0)
      {
        var name :| name in added;
        added := added - {name};
        if name in clusterRefcounts {
          clusterRefcounts := clusterRefcounts[name := ClusterRef(true, clusterRefcounts[name].refCount)];
        } else {
          clusterRefcounts := clusterRefcounts[name := ClusterRef(true, 0)];
        }
      }
      assert clusterRefcounts == Applied(old(clusterRefcounts), allConfigClusters);
    }

    /** A config selector picks a cluster for a call. One that was handed out earlier
        may pick a cluster that has left the table; then no reference is taken. */
    method SelectCluster(clusterName: string)
      requires Valid()
      modifies this`clusterRefcounts, this`outstanding, this`strays
      ensures Valid() && Final() == old(Final()) && clusterRefcounts.Keys == old(clusterRefcounts).Keys
      ensures if clusterName in old(clusterRefcounts) then
                && outstanding == old(outstanding)[clusterName := Calls(old(outstanding), clusterName) + 1]
                && strays == old(strays)
              else
                && strays == old(strays)[clusterName := Calls(old(strays), clusterName) + 1]
                && outstanding == old(outstanding) && clusterRefcounts == old(clusterRefcounts)
    {
      if clusterName in clusterRefcounts {
        SelectedOk(clusterRefcounts, selectorClusters, outstanding, clusterName);
        outstanding := outstanding[clusterName := Calls(outstanding, clusterName) + 1];
        var refCount := clusterRefcounts[clusterName];
        clusterRefcounts := clusterRefcounts[clusterName := refCount.(refCount := refCount.refCount + 1)];
      } else {
        strays := strays[clusterName := Calls(strays, clusterName) + 1];
      }
    }

    /** A call that selected the cluster commits. The last call of a cluster that
        is no longer configured takes it out, and applies the configuration again
        to publish that. The newest configuration is then overtaken, and the resolver
        ends up with an older one, exactly if another one than the latest waits at
        the end of the queue at that moment. */
    method Committed(clusterName: string)
      requires Valid() && Calls(outstanding, clusterName) > 0
      modifies this`clusterRefcounts, this`outstanding, this`waiting
      ensures Valid()
      ensures outstanding == old(outstanding)[clusterName := (Calls(old(outstanding), clusterName) - 1) as nat]
      ensures var unused := clusterName !in selectorClusters && Calls(outstanding, clusterName) == 0;
              if unused then
                && clusterRefcounts.Keys == old(clusterRefcounts).Keys - {clusterName}
                && waiting == old(waiting) + [latestRouteConfig.value]
                && (old(Final()) == newest ==>
                      (Final() != newest <==> old(Waits(latestRouteConfig.value))))
              else
                clusterRefcounts.Keys == old(clusterRefcounts).Keys && waiting == old(waiting)
    {
      CommittedOk(clusterRefcounts, selectorClusters, outstanding, clusterName);
      outstanding := outstanding[clusterName := (Calls(outstanding, clusterName) - 1) as nat];
      UnrefCluster(clusterName);
    }

    /** A call commits that holds no reference. It gives one up nonetheless if its
        cluster is back in the table, and then the counts are right no longer: the
        cluster goes although a call refers to it if that is the only one and the
        cluster is not configured, and has one reference too few otherwise. */
    method StrayCommitted(clusterName: string)
      requires Valid() && Calls(strays, clusterName) > 0
      modifies this`clusterRefcounts, this`strays, this`waiting
      ensures strays == old(strays)[clusterName := (Calls(old(strays), clusterName) - 1) as nat]
      ensures Valid() <==> clusterName !in old(clusterRefcounts)
      ensures clusterName !in old(clusterRefcounts) ==>
                clusterRefcounts == old(clusterRefcounts) && waiting == old(waiting)
      ensures clusterName in old(clusterRefcounts) ==>
                if clusterName !in selectorClusters && Calls(outstanding, clusterName) == 1
                then clusterName !in clusterRefcounts
                else clusterName in clusterRefcounts
                     && clusterRefcounts[clusterName].refCount == Calls(outstanding, clusterName) - 1
    {
      strays := strays[clusterName := (Calls(strays, clusterName) - 1) as nat];
      UnrefCluster(clusterName);
    }

    method UnrefCluster(clusterName: string)
      requires latestRouteConfig.None? ==> clusterName !in clusterRefcounts
      modifies this`clusterRefcounts, this`waiting
      ensures if clusterName !in old(clusterRefcounts) then
                clusterRefcounts == old(clusterRefcounts) && waiting == old(waiting)
              else
                var before := old(clusterRefcounts)[clusterName];
                var left := before.(refCount := before.refCount - 1);
                if !left.inLastConfig && left.refCount == 0 then
                  && clusterRefcounts == old(clusterRefcounts) - {clusterName}
                  && waiting == old(waiting) + [latestRouteConfig.value]
                else clusterRefcounts == old(clusterRefcounts)[clusterName := left] && waiting == old(waiting)
    {
      if clusterName in clusterRefcounts {
        var refCount := clusterRefcounts[clusterName];
        refCount := refCount.(refCount := refCount.refCount - 1);
        clusterRefcounts := clusterRefcounts[clusterName := refCount];
        if !refCount.inLastConfig && refCount.refCount == 0 {
          clusterRefcounts := clusterRefcounts - {clusterName};
          waiting := waiting + [latestRouteConfig.value];
        }
      }
    }
  }

  lemma TargetInList(hosts: seq<VirtualHost>, domain: string, i: nat)
    requires IsTarget(hosts, domain, i)
    ensures i < |hosts| && !NoneSeen(hosts, domain, |hosts|, 0)
  {
  }

  // ----- A configuration that is overtaken -----

  function RouteTo(cluster: string): RouteConfig {
    RouteConfig([VirtualHost(["*"], [Cluster(cluster)])])
  }

  lemma RouteToTarget(cluster: string, domain: string)
    ensures var hosts := RouteTo(cluster).virtualHosts;
            && !NoneSeen(hosts, domain, 1, 0)
            && (forall i | IsTarget(hosts, domain, i) :: i == 0)
            && (forall c :: InConfig(hosts[0], c) <==> c == cluster)
  {
    var hosts := RouteTo(cluster).virtualHosts;
    assert Seen(hosts, 1, 0, 0, 0) && Matches("*", domain);
    forall i | IsTarget(hosts, domain, i) ensures i == 0 { TargetInList(hosts, domain, i); }
    assert Cluster(cluster) in hosts[0].routes;
  }

  method ApplyRouteTo(r: XdsResolver, cluster: string)
    requires r.Valid() && r.waiting != [] && r.waiting[0] == RouteTo(cluster)
    modifies r`waiting, r`latestRouteConfig, r`clusterRefcounts, r`selectorClusters, r`published
    ensures r.Valid() && r.waiting == old(r.waiting)[1..]
    ensures r.latestRouteConfig == Some(RouteTo(cluster)) && r.selectorClusters == {cluster}
            && r.Final() == old(r.Final())
  {
    RouteToTarget(cluster, r.hostDomain);
    var resolved := r.ApplyRouteConfig();
    assert forall c :: c in r.selectorClusters <==> c == cluster;
  }

  /** A call refers to a cluster that the latest configuration no longer has. */
  method ConfigurationMovesOn() returns (r: XdsResolver)
    ensures fresh(r) && r.Valid() && r.waiting == [] && r.latestRouteConfig == Some(RouteTo("second"))
    ensures r.selectorClusters == {"second"} && r.outstanding == map["first" := 1]
  {
    r := new XdsResolver("host");
    r.RouteConfigReceived(RouteTo("first"));
    ApplyRouteTo(r, "first");
    r.SelectCluster("first");
    r.RouteConfigReceived(RouteTo("second"));
    ApplyRouteTo(r, "second");
  }

  /** A run that ends, with nothing waiting, on a configuration other than the one
      received last. */
  method OvertakenConfiguration() returns (r: XdsResolver)
    ensures fresh(r) && r.Valid() && r.waiting == []
    ensures r.newest == Some(RouteTo("third")) && r.latestRouteConfig == Some(RouteTo("second"))
  {
    r := ConfigurationMovesOn();
    r.RouteConfigReceived(RouteTo("third"));
    r.Committed("first");
    ApplyRouteTo(r, "third");
    ApplyRouteTo(r, "second");
  }

  /** `first` was configured, and has gone. */
  method FirstIsGone(first: string, second: string) returns (r: XdsResolver)
    requires first != second
    ensures fresh(r) && r.Valid() && r.waiting == [] && r.selectorClusters == {second}
    ensures r.outstanding == r.strays == map[]
  {
    r := new XdsResolver("host");
    r.RouteConfigReceived(RouteTo(first));
    ApplyRouteTo(r, first);
    r.RouteConfigReceived(RouteTo(second));
    ApplyRouteTo(r, second);
  }

  /** The older config selector picks `first` nonetheless; `first` is configured again,
      another call selects it, and `second` takes its place again. */
  method StraySelection(first: string, second: string) returns (r: XdsResolver)
    requires first != second
    ensures fresh(r) && r.Valid() && r.selectorClusters == {second}
    ensures Calls(r.strays, first) == 1 && Calls(r.outstanding, first) == 1
  {
    r := FirstIsGone(first, second);
    r.SelectCluster(first);
    assert Calls(r.strays, first) == 1;
    r.RouteConfigReceived(RouteTo(first));
    ApplyRouteTo(r, first);
    r.SelectCluster(first);
    r.RouteConfigReceived(RouteTo(second));
    ApplyRouteTo(r, second);
  }

  /** When the first of those calls commits, the cluster of the other is taken out. */
  method StrayCommitRemovesCluster(first: string, second: string) returns (r: XdsResolver)
    requires first != second
    ensures fresh(r) && Calls(r.outstanding, first) == 1 && first !in r.clusterRefcounts
  {
    r := StraySelection(first, second);
    r.StrayCommitted(first);
  }
}
