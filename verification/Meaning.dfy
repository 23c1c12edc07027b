/** The render preserves meaning: a rendered policy permits exactly the
    traffic the authored model permits, and depends on nothing else. */
module Meaning {
  import opened Addresses
  import opened Rendered
  import opened Authored
  import opened Compiler

  // ----- Peers -----

  ghost predicate RouteOf(w: Workload, selector: Selector, t: Text) {
    !w.retired && Matches(selector, LabelMap(w.labels)) && exists a :: a in w.addresses && t == PrefixText(HostRoute(a))
  }

  lemma HostRoutesMember(addresses: seq<Addr>, t: Text)
    ensures t in HostRoutes(addresses) <==> exists a :: a in addresses && t == PrefixText(HostRoute(a))
  {
    var routes := HostRoutes(addresses);
    if t in routes {
      var i :| 0 <= i < |routes| && routes[i] == t;
      assert addresses[i] in addresses;
    }
    if a :| a in addresses && t == PrefixText(HostRoute(a)) {
      var i :| 0 <= i < |addresses| && addresses[i] == a;
      assert routes[i] == t;
    }
  }

  lemma {:induction false} WorkloadTextsMember(ws: seq<Workload>, selector: Selector, t: Text)
    ensures t in WorkloadTexts(ws, selector) <==> exists w :: w in ws && RouteOf(w, selector, t)
  {
    if ws != [] {
      var front, last := ws[..|ws| - 1], ws[|ws| - 1];
      WorkloadTextsMember(front, selector, t);
      HostRoutesMember(last.addresses, t);
      assert t in WorkloadTexts(ws, selector) <==> t in WorkloadTexts(front, selector) || RouteOf(last, selector, t);
      assert forall w :: w in ws <==> w in front || w == last;
    }
  }

  /** A peer's texts admit exactly the sources the peer does. */
  lemma PeerTextsMean(inputs: Inputs, peer: Peer, src: Addr)
    requires DistinctGroups(inputs.groups)
    ensures (exists t :: t in PeerTexts(inputs, peer) && Covers(t, src)) <==> PeerAdmits(inputs, peer, src)
  {
    match peer
    case PeerUnspecified =>
    case PeerCIDR(t) =>
      NormalizeKeepsMeaning(t, src);
      assert NormalizeCIDR(t) in PeerTexts(inputs, peer);
    case PeerAddressGroup(id) =>
      GroupIndexed(inputs.groups);
    case PeerWorkloads(selector) =>
      WorkloadPeersMean(inputs, selector, src);
  }

  lemma WorkloadPeersMean(inputs: Inputs, selector: Selector, src: Addr)
    ensures (exists t :: t in WorkloadTexts(inputs.workloads, selector) && Covers(t, src))
            <==> PeerAdmits(inputs, PeerWorkloads(selector), src)
  {
    if t :| t in WorkloadTexts(inputs.workloads, selector) && Covers(t, src) {
      WorkloadTextsMember(inputs.workloads, selector, t);
      var w :| w in inputs.workloads && RouteOf(w, selector, t);
      var a :| a in w.addresses && t == PrefixText(HostRoute(a));
      HostRouteExact(a, src);
    }
    if PeerAdmits(inputs, PeerWorkloads(selector), src) {
      var w :| w in inputs.workloads && !w.retired && Matches(selector, LabelMap(w.labels))
               && exists a :: a in w.addresses && src == a.Unmap().WithoutZone();
      var a :| a in w.addresses && src == a.Unmap().WithoutZone();
      HostRouteExact(a, src);
      var t := PrefixText(HostRoute(a));
      assert RouteOf(w, selector, t);
      WorkloadTextsMember(inputs.workloads, selector, t);
    }
  }

  lemma {:induction false} AllPeerTextsMember(inputs: Inputs, peers: seq<Peer>, t: Text)
    ensures t in AllPeerTexts(inputs, peers) <==> exists peer :: peer in peers && t in PeerTexts(inputs, peer)
  {
    if peers != [] {
      var front, last := peers[..|peers| - 1], peers[|peers| - 1];
      AllPeerTextsMember(inputs, front, t);
      assert forall p :: p in peers <==> p in front || p == last;
    }
  }

  lemma RulePeersMean(inputs: Inputs, peers: seq<Peer>, src: Addr)
    requires DistinctGroups(inputs.groups)
    ensures (exists t :: t in AllPeerTexts(inputs, peers) && Covers(t, src))
            <==> (exists peer :: peer in peers && PeerAdmits(inputs, peer, src))
  {
    if t :| t in AllPeerTexts(inputs, peers) && Covers(t, src) {
      AllPeerTextsMember(inputs, peers, t);
      var peer :| peer in peers && t in PeerTexts(inputs, peer);
      PeerTextsMean(inputs, peer, src);
    }
    if peer :| peer in peers && PeerAdmits(inputs, peer, src) {
      PeerTextsMean(inputs, peer, src);
      var t :| t in PeerTexts(inputs, peer) && Covers(t, src);
      AllPeerTextsMember(inputs, peers, t);
    }
  }

  // ----- Entries and ports -----

  lemma {:induction false} ReferencedMember(services: map<string, Service>, ids: seq<string>, e: ServiceEntry)
    ensures e in ReferencedEntries(services, ids)
        <==> exists id :: id in ids && id in services && e in services[id].entries
  {
    if ids != [] {
      var front, last := ids[..|ids| - 1], ids[|ids| - 1];
      ReferencedMember(services, front, e);
      assert forall id :: id in ids <==> id in front || id == last;
    }
  }

  lemma RuleEntriesMember(inputs: Inputs, rule: Rule, e: ServiceEntry)
    requires DistinctServices(inputs.services)
    ensures e in RuleEntries(inputs, rule) <==> Offers(inputs, rule, e)
  {
    ServiceIndexed(inputs.services);
    var index := ServiceIndex(inputs.services);
    ReferencedMember(index, rule.serviceIds, e);
    if id :| id in rule.serviceIds && id in index && e in index[id].entries {
      assert index[id] in inputs.services && index[id].id == id;
    }
    if s :| s in inputs.services && s.id in rule.serviceIds && e in s.entries {
      assert s.id in index && index[s.id] == s;
    }
  }

  lemma {:induction false} PortsOfMember(entries: seq<ServiceEntry>, p: Protocol, r: PortRange)
    ensures r in PortsOf(entries, p) <==> exists e :: e in entries && e.protocol == p && r in e.ports
  {
    if entries != [] {
      var front, last := entries[..|entries| - 1], entries[|entries| - 1];
      PortsOfMember(front, p, r);
      assert forall e :: e in entries <==> e in front || e == last;
    }
  }

  /** The expansion covers a port exactly when some entry of the protocol
      does; a port-less entry absorbs every other. */
  lemma ExpandedMeans(entries: seq<ServiceEntry>, p: Protocol, port: nat)
    ensures Names(entries, p) && Covered(port, Expanded(entries, p))
            <==> exists e :: e in entries && e.protocol == p && Covered(port, e.ports)
  {
    if !AllPorts(entries, p) {
      if Names(entries, p) && Covered(port, Expanded(entries, p)) {
        var n :| n in entries && n.protocol == p;
        PortsOfMember(entries, p, n.ports[0]);
        assert PortsOf(entries, p) != [];
        var r :| r in PortsOf(entries, p) && r.start <= port <= r.end;
        PortsOfMember(entries, p, r);
        var e :| e in entries && e.protocol == p && r in e.ports;
        assert Covered(port, e.ports);
      }
      if e :| e in entries && e.protocol == p && Covered(port, e.ports) {
        var r :| r in e.ports && r.start <= port <= r.end;
        PortsOfMember(entries, p, r);
      }
    }
  }

  // ----- Rules -----

  lemma RuleOfMeans(inputs: Inputs, rule: Rule, p: Protocol, src: Addr, port: nat)
    requires DistinctObjects(inputs)
    ensures (exists r :: r in RuleOf(inputs, rule, p) && RulePermits(r, src, p, port))
        <==> RuleAdmits(inputs, rule, src, p, port)
  {
    var entries := RuleEntries(inputs, rule);
    RulePeersMean(inputs, rule.peers, src);
    ExpandedMeans(entries, p, port);
    assert (exists e :: e in entries && e.protocol == p && Covered(port, e.ports))
           <==> (exists e :: Offers(inputs, rule, e) && e.protocol == p && Covered(port, e.ports)) by {
      if e :| e in entries && e.protocol == p && Covered(port, e.ports) { RuleEntriesMember(inputs, rule, e); }
      if e :| Offers(inputs, rule, e) && e.protocol == p && Covered(port, e.ports) {
        RuleEntriesMember(inputs, rule, e);
      }
    }
    if Names(entries, p) {
      var r := RuleOf(inputs, rule, p)[0];
      assert r in RuleOf(inputs, rule, p);
    }
  }

  lemma RuleOfShape(inputs: Inputs, rule: Rule, p: Protocol)
    ensures |RuleOf(inputs, rule, p)| <= 1
    ensures forall r :: r in RuleOf(inputs, rule, p) ==> r.protocol == p && r.id == RuleID(rule.id, p)
  {
  }

  lemma RenderRuleMember(inputs: Inputs, rule: Rule, r: ResolvedRule)
    ensures r in RenderRule(inputs, rule)
        <==> r.protocol != ProtocolUnspecified && r in RuleOf(inputs, rule, r.protocol)
  {
    RuleOfShape(inputs, rule, Tcp);
    RuleOfShape(inputs, rule, Udp);
    RuleOfShape(inputs, rule, Icmp);
  }

  lemma RenderRuleMeans(inputs: Inputs, rule: Rule, src: Addr, p: Protocol, port: nat)
    requires DistinctObjects(inputs)
    ensures (exists r :: r in RenderRule(inputs, rule) && RulePermits(r, src, p, port))
            <==> p != ProtocolUnspecified && RuleAdmits(inputs, rule, src, p, port)
  {
    RuleOfMeans(inputs, rule, p, src, port);
    if r :| r in RenderRule(inputs, rule) && RulePermits(r, src, p, port) {
      RenderRuleMember(inputs, rule, r);
    }
    if p != ProtocolUnspecified && RuleAdmits(inputs, rule, src, p, port) {
      var r :| r in RuleOf(inputs, rule, p) && RulePermits(r, src, p, port);
      RenderRuleMember(inputs, rule, r);
    }
  }

  lemma {:induction false} RenderRulesMember(inputs: Inputs, rules: seq<Rule>, r: ResolvedRule)
    ensures r in RenderRules(inputs, rules)
            <==> exists rule ::
              rule in rules && rule.enabled && rule.direction == Inbound && r in RenderRule(inputs, rule)
  {
    if rules != [] {
      var front, last := rules[..|rules| - 1], rules[|rules| - 1];
      RenderRulesMember(inputs, front, r);
      assert forall x :: x in rules <==> x in front || x == last;
    }
  }

  lemma {:induction false} RenderRulesetsMember(inputs: Inputs, rss: seq<Ruleset>, labels: map<string, string>,
      r: ResolvedRule)
    ensures r in RenderRulesets(inputs, rss, labels)
            <==> exists rs, rule :: rs in rss && Applies(rs, rule, labels) && r in RenderRule(inputs, rule)
  {
    if rss != [] {
      var front, last := rss[..|rss| - 1], rss[|rss| - 1];
      RenderRulesetsMember(inputs, front, labels, r);
      RenderRulesMember(inputs, last.rules, r);
      assert forall x :: x in rss <==> x in front || x == last;
      if last.enabled && Matches(last.scope, labels) && r in RenderRules(inputs, last.rules) {
        var rule :| rule in last.rules && rule.enabled && rule.direction == Inbound && r in RenderRule(inputs, rule);
        assert Applies(last, rule, labels);
      }
    }
  }

  /** Before canonicalization the rendered rules permit exactly what the
      authored model does, for the protocols that are rendered. */
  lemma RawMeans(inputs: Inputs, w: Workload, src: Addr, p: Protocol, port: nat)
    requires DistinctObjects(inputs)
    ensures Permits(RawPolicy(inputs, w), src, p, port)
            <==> p != ProtocolUnspecified && AuthoredPermits(inputs, LabelMap(w.labels), src, p, port)
  {
    var labels := LabelMap(w.labels);
    var raw := RawPolicy(inputs, w);
    if r :| r in raw.rules && RulePermits(r, src, p, port) {
      RenderRulesetsMember(inputs, inputs.rulesets, labels, r);
      var rs, rule :| rs in inputs.rulesets && Applies(rs, rule, labels) && r in RenderRule(inputs, rule);
      RenderRuleMeans(inputs, rule, src, p, port);
    }
    if p != ProtocolUnspecified && AuthoredPermits(inputs, labels, src, p, port) {
      var rs, rule :| rs in inputs.rulesets && Applies(rs, rule, labels) && RuleAdmits(inputs, rule, src, p, port);
      RenderRuleMeans(inputs, rule, src, p, port);
      var r :| r in RenderRule(inputs, rule) && RulePermits(r, src, p, port);
      RenderRulesetsMember(inputs, inputs.rulesets, labels, r);
    }
  }

  // ----- Distinct rule ids -----

  ghost predicate IdFrom(authored: string, id: string) {
    exists p :: id == RuleID(authored, p)
  }

  ghost predicate NoShared(a: seq<ResolvedRule>, b: seq<ResolvedRule>) {
    forall x, y :: x in a && y in b ==> x.id != y.id
  }

  lemma DistinctConcat(a: seq<ResolvedRule>, b: seq<ResolvedRule>)
    requires DistinctIds(a) && DistinctIds(b) && NoShared(a, b)
    ensures DistinctIds(a + b)
  {
    forall i, j | 0 <= i < j < |a + b| ensures (a + b)[i].id != (a + b)[j].id {
      if i < |a| && j >= |a| { assert a[i] in a && b[j - |a|] in b; }
    }
  }

  lemma RenderRuleDistinct(inputs: Inputs, rule: Rule)
    ensures DistinctIds(RenderRule(inputs, rule))
    ensures forall r :: r in RenderRule(inputs, rule) ==> IdFrom(rule.id, r.id)
  {
    var a, b, c := RuleOf(inputs, rule, Tcp), RuleOf(inputs, rule, Udp), RuleOf(inputs, rule, Icmp);
    RuleOfShape(inputs, rule, Tcp);
    RuleOfShape(inputs, rule, Udp);
    RuleOfShape(inputs, rule, Icmp);
    assert RuleID(rule.id, Tcp) != RuleID(rule.id, Udp) by {
      if RuleID(rule.id, Tcp) == RuleID(rule.id, Udp) { RuleIDInjective(rule.id, rule.id, Tcp, Udp); }
    }
    assert RuleID(rule.id, Tcp) != RuleID(rule.id, Icmp) by {
      if RuleID(rule.id, Tcp) == RuleID(rule.id, Icmp) { RuleIDInjective(rule.id, rule.id, Tcp, Icmp); }
    }
    assert RuleID(rule.id, Udp) != RuleID(rule.id, Icmp) by {
      if RuleID(rule.id, Udp) == RuleID(rule.id, Icmp) { RuleIDInjective(rule.id, rule.id, Udp, Icmp); }
    }
    DistinctConcat(a, b);
    DistinctConcat(a + b, c);
  }

  lemma {:induction false} RenderRulesDistinct(inputs: Inputs, rules: seq<Rule>)
    requires forall k, l :: 0 <= k < l < |rules| ==> rules[k].id != rules[l].id
    ensures DistinctIds(RenderRules(inputs, rules))
    ensures forall r :: r in RenderRules(inputs, rules) ==> exists rule :: rule in rules && IdFrom(rule.id, r.id)
  {
    if rules != [] {
      var front, last := rules[..|rules| - 1], rules[|rules| - 1];
      RenderRulesDistinct(inputs, front);
      RenderRuleDistinct(inputs, last);
      var a, b := RenderRules(inputs, front), RenderRule(inputs, last);
      forall x, y | x in a && y in b ensures x.id != y.id {
        var rule :| rule in front && IdFrom(rule.id, x.id);
        OriginsDiffer(rule.id, last.id, x.id, y.id);
      }
      DistinctConcat(a, b);
      assert a + [] == a;
      assert forall x :: x in rules <==> x in front || x == last;
    }
  }

  lemma OriginsDiffer(a: string, b: string, x: string, y: string)
    requires IdFrom(a, x) && IdFrom(b, y) && a != b
    ensures x != y
  {
    var p :| x == RuleID(a, p);
    var q :| y == RuleID(b, q);
    if x == y { RuleIDInjective(a, b, p, q); }
  }

  lemma {:induction false} RenderRulesetsDistinct(inputs: Inputs, rss: seq<Ruleset>, labels: map<string, string>)
    requires DistinctRules(rss)
    ensures DistinctIds(RenderRulesets(inputs, rss, labels))
    ensures forall r :: r in RenderRulesets(inputs, rss, labels) ==>
        exists rs, rule :: rs in rss && rule in rs.rules && IdFrom(rule.id, r.id)
  {
    if rss != [] {
      hide RenderRules, IdFrom;
      var front, last := rss[..|rss| - 1], rss[|rss| - 1];
      RenderRulesetsDistinct(inputs, front, labels);
      RenderRulesDistinct(inputs, last.rules);
      var a, b := RenderRulesets(inputs, front, labels), RenderRules(inputs, last.rules);
      forall x, y | x in a && y in b ensures x.id != y.id {
        var rs, rule :| rs in front && rule in rs.rules && IdFrom(rule.id, x.id);
        var other :| other in last.rules && IdFrom(other.id, y.id);
        RowsDiffer(rss, rs, rule, other);
        OriginsDiffer(rule.id, other.id, x.id, y.id);
      }
      DistinctConcat(a, b);
      assert a + [] == a;
      assert forall x :: x in rss <==> x in front || x == last;
    }
  }

  lemma RowsDiffer(rss: seq<Ruleset>, rs: Ruleset, rule: Rule, other: Rule)
    requires DistinctRules(rss) && rss != []
    requires rs in rss[..|rss| - 1] && rule in rs.rules && other in rss[|rss| - 1].rules
    ensures rule.id != other.id
  {
    var i :| 0 <= i < |rss| - 1 && rss[i] == rs;
    var k :| 0 <= k < |rs.rules| && rs.rules[k] == rule;
    var l :| 0 <= l < |rss[|rss| - 1].rules| && rss[|rss| - 1].rules[l] == other;
    assert rss[i].rules[k] == rule && rss[|rss| - 1].rules[l] == other;
  }

  // ----- The theorem -----

  /** The rendered policy never permits what the authored model does not, and
      given distinct rule ids permits exactly what it does. */
  lemma RenderPreservesMeaning(inputs: Inputs, w: Workload, src: Addr, p: Protocol, port: nat)
    requires DistinctObjects(inputs)
    ensures Permits(RenderWorkload(inputs, w), src, p, port)
            ==> p != ProtocolUnspecified && AuthoredPermits(inputs, LabelMap(w.labels), src, p, port)
    ensures DistinctRules(inputs.rulesets) ==>
              (Permits(RenderWorkload(inputs, w), src, p, port)
               <==> p != ProtocolUnspecified && AuthoredPermits(inputs, LabelMap(w.labels), src, p, port))
  {
    CanonicalKeepsMeaning(RawPolicy(inputs, w), src, p, port);
    RawMeans(inputs, w, src, p, port);
    if DistinctRules(inputs.rulesets) {
      RenderRulesetsDistinct(inputs, inputs.rulesets, LabelMap(w.labels));
    }
  }
}
