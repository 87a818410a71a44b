/**
  Which agents a policy reaches (`Policy.is_agent_excluded`,
  `Policy.get_related`, `Policy.related_agents`).

  An agent is reached along three paths: the policy is assigned to the agent
  itself, to the agent's site, or to the agent's client (for the agent's
  monitoring type). Only the explicit path subtracts all three exclusion
  sets; the site path subtracts excluded sites and clients, and the client
  path only excluded clients.
*/
module PolicyScope {
  import opened Entities

  /** The agent, its site or its client is in one of the policy's exclusion sets. */
  predicate IsAgentExcluded(p: Policy, a: Agent): (r: bool)
    ensures a.policy == Some(p.id) ==> (r <==> !ExplicitAgent(p, a.monType, a))
    ensures r ==> forall m :: !ExplicitAgent(p, m, a)
  {
    a.id in p.excludedAgents
    || a.site.id in p.excludedSites
    || a.site.client.id in p.excludedClients
  }

  /** `explicit_agents`: assigned the policy, of the monitoring type, minus the three exclusions. */
  predicate ExplicitAgent(p: Policy, m: MonType, a: Agent) {
    && a.policy == Some(p.id)
    && a.monType == m
    && a.id !in p.excludedAgents
    && a.site.id !in p.excludedSites
    && a.site.client.id !in p.excludedClients
  }

  /** Membership in `explicit_sites`: the site carries the policy for `m` and is not excluded. */
  predicate ExplicitSite(p: Policy, m: MonType, s: Site) {
    s.PolicyFor(m) == Some(p.id) && s.id !in p.excludedSites
  }

  /** Membership in `explicit_clients`: the client carries the policy for `m` and is not excluded. */
  predicate ExplicitClient(p: Policy, m: MonType, c: Client) {
    c.PolicyFor(m) == Some(p.id) && c.id !in p.excludedClients
  }

  /** The site path: an explicit site whose client is neither an explicit client nor excluded. */
  predicate InheritsViaSite(p: Policy, m: MonType, a: Agent) {
    && !a.blockPolicyInheritance
    && a.monType == m
    && ExplicitSite(p, m, a.site)
    && !ExplicitClient(p, m, a.site.client)
    && a.site.client.id !in p.excludedClients
  }

  /** The client path: an explicit client, and neither the agent nor its site blocks inheritance. */
  predicate InheritsViaClient(p: Policy, m: MonType, a: Agent) {
    && !a.blockPolicyInheritance
    && !a.site.blockPolicyInheritance
    && a.monType == m
    && ExplicitClient(p, m, a.site.client)
  }

  /** The agents of `agents` that policy `p` reaches for monitoring type `m`. */
  function GetRelated(p: Policy, m: MonType, agents: set<Agent>): (r: set<Agent>)
    ensures r <= agents
    ensures forall a :: a in r ==> a.monType == m
    ensures forall a :: a in r && a.blockPolicyInheritance ==>
      a.policy == Some(p.id) && !IsAgentExcluded(p, a)
    ensures forall a :: a in r ==> a.site.client.id !in p.excludedClients
    ensures forall a :: a in agents && a.monType == m && a.policy == Some(p.id) && !IsAgentExcluded(p, a) ==> a in r
  {
    set a | a in agents && (InheritsViaSite(p, m, a) || InheritsViaClient(p, m, a) || ExplicitAgent(p, m, a))
  }

  /** Every agent the policy reaches, servers and workstations together. */
  function RelatedAgents(p: Policy, agents: set<Agent>): (r: set<Agent>)
    ensures forall a :: a in r <==> a in GetRelated(p, a.monType, agents)
  {
    GetRelated(p, Server, agents) + GetRelated(p, Workstation, agents)
  }

  /** On the explicit path the three exclusion filters drop exactly the agents `IsAgentExcluded` names. */
  lemma ExplicitPathDropsExactlyExcluded(p: Policy, m: MonType, a: Agent)
    requires a.policy == Some(p.id) && a.monType == m
    ensures ExplicitAgent(p, m, a) <==> !IsAgentExcluded(p, a)
  {
  }

  /** An agent whose site is excluded is reached only through its client. */
  lemma ExcludedSiteOnlyViaClient(p: Policy, m: MonType, agents: set<Agent>, a: Agent)
    requires a in GetRelated(p, m, agents) && a.site.id in p.excludedSites
    ensures InheritsViaClient(p, m, a)
    ensures !a.blockPolicyInheritance && !a.site.blockPolicyInheritance
  {
  }

  /** An agent in `excluded_agents` is reached only by inheritance, never explicitly. */
  lemma ExcludedAgentOnlyInherited(p: Policy, m: MonType, agents: set<Agent>, a: Agent)
    requires a in GetRelated(p, m, agents) && a.id in p.excludedAgents
    ensures InheritsViaSite(p, m, a) || InheritsViaClient(p, m, a)
    ensures !a.blockPolicyInheritance
  {
  }

  /** The site path reaches every non-blocking agent of an assigned, non-excluded site whose client is neither assigned nor excluded (the converse is `SitePathConditions`). */
  lemma SitePath(p: Policy, m: MonType, agents: set<Agent>, a: Agent)
    requires a in agents && a.monType == m && !a.blockPolicyInheritance
    requires a.site.PolicyFor(m) == Some(p.id) && a.site.id !in p.excludedSites
    requires a.site.client.PolicyFor(m) != Some(p.id) && a.site.client.id !in p.excludedClients
    ensures a in GetRelated(p, m, agents)
  {
  }

  /** Reached neither explicitly nor through the client: then it came through its site, under the site path's conditions. */
  lemma SitePathConditions(p: Policy, m: MonType, agents: set<Agent>, a: Agent)
    requires a in GetRelated(p, m, agents)
    requires !ExplicitAgent(p, m, a) && !InheritsViaClient(p, m, a)
    ensures !a.blockPolicyInheritance
    ensures a.site.PolicyFor(m) == Some(p.id) && a.site.id !in p.excludedSites
    ensures a.site.client.PolicyFor(m) != Some(p.id) && a.site.client.id !in p.excludedClients
  {
  }

  /** The client path reaches the non-blocking agents of an assigned, non-excluded client under a non-blocking site. */
  lemma ClientPath(p: Policy, m: MonType, agents: set<Agent>, a: Agent)
    requires a in agents && a.monType == m
    requires !a.blockPolicyInheritance && !a.site.blockPolicyInheritance
    requires a.site.client.PolicyFor(m) == Some(p.id) && a.site.client.id !in p.excludedClients
    ensures a in GetRelated(p, m, agents)
  {
  }

  /** A site that blocks inheritance shuts the client path: such an agent is reached explicitly or through its own site. */
  lemma BlockingSiteShutsClientPath(p: Policy, m: MonType, agents: set<Agent>, a: Agent)
    requires a in GetRelated(p, m, agents) && a.site.blockPolicyInheritance
    ensures ExplicitAgent(p, m, a) || InheritsViaSite(p, m, a)
  {
  }

  /**
    Exclusion does not always win: the inherited paths do not subtract
    `excluded_agents`, so an excluded agent under an assigned site is reached.
  */
  lemma ExcludedAgentReachedThroughSite()
    ensures exists p: Policy, a: Agent :: IsAgentExcluded(p, a) && a in GetRelated(p, a.monType, {a})
  {
    var c := Client(1, None, None);
    var s := Site(2, c, false, Some(7), None);
    var a := Agent(3, Server, false, s, Some(7));
    var p := Policy(7, true, false, {3}, {}, {}, [], []);
    assert InheritsViaSite(p, Server, a);
    assert a in GetRelated(p, a.monType, {a});
  }
}
