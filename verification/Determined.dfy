/** A render depends only on what its inputs say, not on the order they are
    listed in. */
module Determined {
  import opened Orders
  import opened Addresses
  import opened Rendered
  import opened Authored
  import opened Compiler
  import opened Meaning

  /** Two rows that no render can tell apart: a retired workload counts only
      as retired. */
  ghost predicate SameView(w: Workload, v: Workload) {
    && w.id == v.id && w.retired == v.retired
    && (!w.retired ==>
      w.mode == v.mode && LabelMap(w.labels) == LabelMap(v.labels) && Elems(w.addresses) == Elems(v.addresses))
  }

  ghost predicate ViewsWithin(ws: seq<Workload>, vs: seq<Workload>) {
    forall w :: w in ws ==> exists v :: v in vs && SameView(w, v)
  }

  ghost predicate SameState(a: Inputs, b: Inputs) {
    && ViewsWithin(a.workloads, b.workloads) && ViewsWithin(b.workloads, a.workloads)
    && Elems(a.rulesets) == Elems(b.rulesets)
    && Elems(a.services) == Elems(b.services)
    && Elems(a.groups) == Elems(b.groups)
  }

  /** What storage's keys guarantee of every input. */
  ghost predicate Keyed(inputs: Inputs) {
    && DistinctWorkloads(inputs.workloads) && DistinctRules(inputs.rulesets) && DistinctObjects(inputs)
  }

  lemma SameMember<T>(s: seq<T>, t: seq<T>, x: T)
    requires Elems(s) == Elems(t)
    ensures x in s <==> x in t
  {
    assert x in s <==> x in Elems(s);
    assert x in t <==> x in Elems(t);
  }

  lemma GroupTextsWithin(a: Inputs, b: Inputs, id: string)
    requires Elems(a.groups) == Elems(b.groups) && DistinctGroups(a.groups) && DistinctGroups(b.groups)
    requires id in GroupIndex(a.groups)
    ensures id in GroupIndex(b.groups) && GroupIndex(b.groups)[id] == GroupIndex(a.groups)[id]
  {
    GroupIndexed(a.groups);
    GroupIndexed(b.groups);
    SameMember(a.groups, b.groups, GroupIndex(a.groups)[id]);
  }

  lemma WorkloadTextsWithin(a: Inputs, b: Inputs, selector: Selector, t: Text)
    requires ViewsWithin(a.workloads, b.workloads)
    requires t in WorkloadTexts(a.workloads, selector)
    ensures t in WorkloadTexts(b.workloads, selector)
  {
    WorkloadTextsMember(a.workloads, selector, t);
    var w :| w in a.workloads && RouteOf(w, selector, t);
    var v :| v in b.workloads && SameView(w, v);
    var x :| x in w.addresses && t == PrefixText(HostRoute(x));
    SameMember(w.addresses, v.addresses, x);
    assert RouteOf(v, selector, t);
    WorkloadTextsMember(b.workloads, selector, t);
  }

  lemma PeerTextsWithin(a: Inputs, b: Inputs, peer: Peer, t: Text)
    requires SameState(a, b) && DistinctGroups(a.groups) && DistinctGroups(b.groups)
    requires t in PeerTexts(a, peer)
    ensures t in PeerTexts(b, peer)
  {
    match peer
    case PeerUnspecified =>
    case PeerCIDR(_) =>
    case PeerAddressGroup(id) => GroupTextsWithin(a, b, id);
    case PeerWorkloads(selector) => WorkloadTextsWithin(a, b, selector, t);
  }

  lemma SamePeerTexts(a: Inputs, b: Inputs, peers: seq<Peer>)
    requires SameState(a, b) && DistinctGroups(a.groups) && DistinctGroups(b.groups)
    ensures NormalSet(AllPeerTexts(a, peers)) == NormalSet(AllPeerTexts(b, peers))
  {
    forall t ensures t in AllPeerTexts(a, peers) <==> t in AllPeerTexts(b, peers) {
      AllPeerTextsMember(a, peers, t);
      AllPeerTextsMember(b, peers, t);
      if t in AllPeerTexts(a, peers) {
        var peer :| peer in peers && t in PeerTexts(a, peer);
        PeerTextsWithin(a, b, peer, t);
      }
      if t in AllPeerTexts(b, peers) {
        var peer :| peer in peers && t in PeerTexts(b, peer);
        PeerTextsWithin(b, a, peer, t);
      }
    }
  }

  lemma SameEntries(a: Inputs, b: Inputs, rule: Rule)
    requires SameState(a, b) && DistinctServices(a.services) && DistinctServices(b.services)
    ensures Elems(RuleEntries(a, rule)) == Elems(RuleEntries(b, rule))
  {
    forall e ensures e in Elems(RuleEntries(a, rule)) <==> e in Elems(RuleEntries(b, rule)) {
      RuleEntriesMember(a, rule, e);
      RuleEntriesMember(b, rule, e);
      if s :| s in a.services && s.id in rule.serviceIds && e in s.entries { SameMember(a.services, b.services, s); }
      if s :| s in b.services && s.id in rule.serviceIds && e in s.entries { SameMember(a.services, b.services, s); }
    }
  }

  lemma SameExpansion(x: seq<ServiceEntry>, y: seq<ServiceEntry>, p: Protocol)
    requires Elems(x) == Elems(y)
    ensures Names(x, p) <==> Names(y, p)
    ensures Elems(Expanded(x, p)) == Elems(Expanded(y, p))
  {
    assert forall e :: e in x <==> e in Elems(x);
    assert forall e :: e in y <==> e in Elems(y);
    forall r ensures r in PortsOf(x, p) <==> r in PortsOf(y, p) {
      PortsOfMember(x, p, r);
      PortsOfMember(y, p, r);
    }
    assert Elems(PortsOf(x, p)) == Elems(PortsOf(y, p));
  }

  lemma SameRuleOf(a: Inputs, b: Inputs, rule: Rule, p: Protocol)
    requires SameState(a, b) && DistinctObjects(a) && DistinctObjects(b)
    ensures |RuleOf(a, rule, p)| == |RuleOf(b, rule, p)|
    ensures RuleOf(a, rule, p) != [] ==> GrantOf(RuleOf(a, rule, p)[0]) == GrantOf(RuleOf(b, rule, p)[0])
  {
    SamePeerTexts(a, b, rule.peers);
    SameEntries(a, b, rule);
    SameExpansion(RuleEntries(a, rule), RuleEntries(b, rule), p);
  }

  /** Every rule rendered from a has a counterpart rendered from b. */
  lemma RuleWithin(a: Inputs, b: Inputs, labels: map<string, string>, r: ResolvedRule) returns (q: ResolvedRule)
    requires SameState(a, b) && DistinctObjects(a) && DistinctObjects(b)
    requires r in RenderRulesets(a, a.rulesets, labels)
    ensures q in RenderRulesets(b, b.rulesets, labels) && q.id == r.id && GrantOf(q) == GrantOf(r)
  {
    RenderRulesetsMember(a, a.rulesets, labels, r);
    var rs, rule :| rs in a.rulesets && Applies(rs, rule, labels) && r in RenderRule(a, rule);
    RenderRuleMember(a, rule, r);
    q := RuleCounterpart(a, b, rule, r);
    RenderRuleMember(b, rule, q);
    SameMember(a.rulesets, b.rulesets, rs);
    RenderRulesetsMember(b, b.rulesets, labels, q);
  }

  lemma RuleCounterpart(a: Inputs, b: Inputs, rule: Rule, r: ResolvedRule) returns (q: ResolvedRule)
    requires SameState(a, b) && DistinctObjects(a) && DistinctObjects(b)
    requires r in RuleOf(a, rule, r.protocol)
    ensures q in RuleOf(b, rule, r.protocol) && q.protocol == r.protocol && q.id == r.id && GrantOf(q) == GrantOf(r)
  {
    SameRuleOf(a, b, rule, r.protocol);
    RuleOfShape(a, rule, r.protocol);
    RuleOfShape(b, rule, r.protocol);
    q := RuleOf(b, rule, r.protocol)[0];
  }

  lemma RawWithin(a: Inputs, b: Inputs, labels: map<string, string>, id: string)
    requires SameState(a, b) && Keyed(a) && Keyed(b)
    requires id in Index(RenderRulesets(a, a.rulesets, labels))
    ensures id in Index(RenderRulesets(b, b.rulesets, labels))
    ensures Index(RenderRulesets(b, b.rulesets, labels))[id] == Index(RenderRulesets(a, a.rulesets, labels))[id]
  {
    var x, y := RenderRulesets(a, a.rulesets, labels), RenderRulesets(b, b.rulesets, labels);
    RenderRulesetsDistinct(b, b.rulesets, labels);
    IndexKeys(x);
    var r :| r in x && r.id == id && Index(x)[id] == GrantOf(r);
    var q := RuleWithin(a, b, labels, r);
    IndexDistinct(y);
  }

  lemma SameRendering(a: Inputs, b: Inputs, w: Workload, v: Workload)
    requires SameState(a, b) && Keyed(a) && Keyed(b) && SameView(w, v) && !w.retired
    ensures RenderWorkload(a, w) == RenderWorkload(b, v)
  {
    var labels := LabelMap(w.labels);
    var x, y := Index(RenderRulesets(a, a.rulesets, labels)), Index(RenderRulesets(b, b.rulesets, labels));
    forall id | id in x ensures id in y && y[id] == x[id] { RawWithin(a, b, labels, id); }
    forall id | id in y ensures id in x && x[id] == y[id] { RawWithin(b, a, labels, id); }
    assert x == y;
  }

  lemma RenderWithin(a: Inputs, b: Inputs, id: string)
    requires SameState(a, b) && Keyed(a) && Keyed(b) && id in Render(a)
    ensures id in Render(b) && Render(b)[id] == Render(a)[id]
  {
    RenderCovers(a);
    RenderCovers(b);
    var w :| w in a.workloads && !w.retired && w.id == id;
    var v :| v in b.workloads && SameView(w, v);
    SameRendering(a, b, w, v);
  }

  /** Inputs in the same state render the same policies for the same
      workloads, whatever the order of workloads, rulesets, services,
      groups, labels and addresses. */
  lemma RenderDetermined(a: Inputs, b: Inputs)
    requires SameState(a, b) && Keyed(a) && Keyed(b)
    ensures Render(a) == Render(b)
  {
    forall id | id in Render(a) ensures id in Render(b) && Render(b)[id] == Render(a)[id] { RenderWithin(a, b, id); }
    forall id | id in Render(b) ensures id in Render(a) { RenderWithin(b, a, id); }
  }

  /** An object's id and version name one content. */
  ghost predicate Versioned(a: Inputs, b: Inputs) {
    && (forall x, y :: x in a.rulesets && y in b.rulesets && x.id == y.id && x.version == y.version ==> x == y)
    && (forall x, y :: x in a.services && y in b.services && x.id == y.id && x.version == y.version ==> x == y)
    && (forall x, y :: x in a.groups && y in b.groups && x.id == y.id && x.version == y.version ==> x == y)
  }

  ghost predicate DistinctLabels(inputs: Inputs) {
    forall w :: w in inputs.workloads ==> forall i, j :: 0 <= i < j < |w.labels| ==> w.labels[i].key != w.labels[j].key
  }

  lemma {:induction false} LabelMapMember(labels: seq<Label>)
    requires forall i, j :: 0 <= i < j < |labels| ==> labels[i].key != labels[j].key
    ensures forall k, v :: k in LabelMap(labels) && LabelMap(labels)[k] == v <==> Label(k, v) in labels
  {
    if labels != [] {
      var front, last := labels[..|labels| - 1], labels[|labels| - 1];
      LabelMapMember(front);
      assert labels == front + [last];
      assert forall l :: l in front ==> l.key != last.key;
    }
  }
}
