/** The render: authored rulesets compiled to one canonical policy per
    active workload, as the program computes it and what it means. */
module Compiler {
  import opened Addresses
  import opened Rendered
  import opened RenderedOps
  import opened Authored

  function ProtocolName(p: Protocol): string {
    match p
    case ProtocolUnspecified => "unspecified"
    case Tcp => "tcp"
    case Udp => "udp"
    case Icmp => "icmp"
  }

  function RuleID(authored: string, p: Protocol): string {
    authored + "/" + ProtocolName(p)
  }

  /** A resolved rule's id determines the authored rule and the protocol. */
  lemma RuleIDInjective(a: string, b: string, p: Protocol, q: Protocol)
    requires RuleID(a, p) == RuleID(b, q)
    ensures a == b && p == q
  {
    var s := RuleID(a, p);
    assert s[|s| - 2] == ProtocolName(p)[|ProtocolName(p)| - 2];
    assert s[|s| - 2] == ProtocolName(q)[|ProtocolName(q)| - 2];
    assert p == q;
    assert s[..|a|] == a && s[..|b|] == b;
  }

  // ----- Index maps -----

  function ServiceIndex(ss: seq<Service>): map<string, Service> {
    if ss == [] then map[] else ServiceIndex(ss[..|ss| - 1])[ss[|ss| - 1].id := ss[|ss| - 1]]
  }

  function GroupIndex(gs: seq<AddressGroup>): map<string, AddressGroup> {
    if gs == [] then map[] else GroupIndex(gs[..|gs| - 1])[gs[|gs| - 1].id := gs[|gs| - 1]]
  }

  lemma {:induction false} ServiceIndexed(ss: seq<Service>)
    requires DistinctServices(ss)
    ensures forall id, s :: id in ServiceIndex(ss) && ServiceIndex(ss)[id] == s <==> s in ss && s.id == id
  {
    if ss != [] {
      var front, last := ss[..|ss| - 1], ss[|ss| - 1];
      ServiceIndexed(front);
      assert ss == front + [last];
      assert forall s :: s in front ==> s.id != last.id;
    }
  }

  lemma {:induction false} GroupIndexed(gs: seq<AddressGroup>)
    requires DistinctGroups(gs)
    ensures forall id, g :: id in GroupIndex(gs) && GroupIndex(gs)[id] == g <==> g in gs && g.id == id
  {
    if gs != [] {
      var front, last := gs[..|gs| - 1], gs[|gs| - 1];
      GroupIndexed(front);
      assert gs == front + [last];
      assert forall g :: g in front ==> g.id != last.id;
    }
  }

  // ----- Peers -----

  function HostRoutes(addresses: seq<Addr>): seq<Text> {
    seq(|addresses|, i requires 0 <= i < |addresses| => PrefixText(HostRoute(addresses[i])))
  }

  function WorkloadTexts(ws: seq<Workload>, selector: Selector): seq<Text> {
    if ws == [] then []
    else
      var n := |ws| - 1;
      WorkloadTexts(ws[..n], selector)
      + (if ws[n].retired || !Matches(selector, LabelMap(ws[n].labels)) then [] else HostRoutes(ws[n].addresses))
  }

  function PeerTexts(inputs: Inputs, peer: Peer): seq<Text> {
    match peer
    case PeerUnspecified => []
    case PeerWorkloads(selector) => WorkloadTexts(inputs.workloads, selector)
    case PeerAddressGroup(id) => if id in GroupIndex(inputs.groups) then GroupIndex(inputs.groups)[id].cidrs else []
    case PeerCIDR(t) => [NormalizeCIDR(t)]
  }

  function AllPeerTexts(inputs: Inputs, peers: seq<Peer>): seq<Text> {
    if peers == [] then [] else AllPeerTexts(inputs, peers[..|peers| - 1]) + PeerTexts(inputs, peers[|peers| - 1])
  }

  method ResolvePeers(inputs: Inputs, groups: map<string, AddressGroup>, labels: seq<map<string, string>>,
      peers: seq<Peer>)
    returns (out: seq<Text>)
    requires groups == GroupIndex(inputs.groups) && |labels| == |inputs.workloads|
    requires forall i :: 0 <= i < |labels| ==> labels[i] == LabelMap(inputs.workloads[i].labels)
    ensures out == AllPeerTexts(inputs, peers)
  {
    out := [];
    for i := 0 to |peers|
      invariant out == AllPeerTexts(inputs, peers[..i])
    {
      assert peers[..i + 1][..i] == peers[..i];
      match peers[i]
      case PeerWorkloads(selector) =>
        var more := SelectedRoutes(inputs.workloads, labels, selector);
        out := out + more;
      case PeerAddressGroup(id) =>
        if id in groups {
          out := out + groups[id].cidrs;
        }
      case PeerCIDR(t) =>
        out := out + [NormalizeCIDR(t)];
      case PeerUnspecified =>
    }
    assert peers[..|peers|] == peers;
  }

  method SelectedRoutes(ws: seq<Workload>, labels: seq<map<string, string>>, selector: Selector)
      returns (out: seq<Text>)
    requires |labels| == |ws| && forall i :: 0 <= i < |labels| ==> labels[i] == LabelMap(ws[i].labels)
    ensures out == WorkloadTexts(ws, selector)
  {
    out := [];
    for j := 0 to |ws|
      invariant out == WorkloadTexts(ws[..j], selector)
    {
      assert ws[..j + 1][..j] == ws[..j];
      var matched := SelectorMatches(selector, labels[j]);
      if ws[j].retired || !matched {
        continue;
      }
      var more := Routes(ws[j].addresses);
      out := out + more;
    }
    assert ws[..|ws|] == ws;
  }

  method Routes(addresses: seq<Addr>) returns (out: seq<Text>)
    ensures out == HostRoutes(addresses)
  {
    out := [];
    for k := 0 to |addresses|
      invariant out == HostRoutes(addresses[..k])
    {
      assert HostRoutes(addresses[..k + 1]) == HostRoutes(addresses[..k]) + [PrefixText(HostRoute(addresses[k]))];
      out := out + [PrefixText(HostRoute(addresses[k]))];
    }
    assert addresses[..|addresses|] == addresses;
  }

  // ----- Services -----

  function ReferencedEntries(services: map<string, Service>, ids: seq<string>): seq<ServiceEntry> {
    if ids == [] then []
    else
      var n := |ids| - 1;
      ReferencedEntries(services, ids[..n]) + (if ids[n] in services then services[ids[n]].entries else [])
  }

  /** The entries a rule expands, referenced ones first. */
  function RuleEntries(inputs: Inputs, rule: Rule): seq<ServiceEntry> {
    ReferencedEntries(ServiceIndex(inputs.services), rule.serviceIds) + rule.entries
  }

  predicate Names(entries: seq<ServiceEntry>, p: Protocol) {
    exists e :: e in entries && e.protocol == p
  }

  predicate AllPorts(entries: seq<ServiceEntry>, p: Protocol) {
    exists e :: e in entries && e.protocol == p && e.ports == []
  }

  function PortsOf(entries: seq<ServiceEntry>, p: Protocol): seq<PortRange> {
    if entries == [] then []
    else
      var n := |entries| - 1;
      PortsOf(entries[..n], p) + (if entries[n].protocol == p then entries[n].ports else [])
  }

  /** The ports a protocol gets: every port, written as no range, once any
      entry of the protocol names none; else every range of its entries. */
  function Expanded(entries: seq<ServiceEntry>, p: Protocol): seq<PortRange> {
    if AllPorts(entries, p) then [] else PortsOf(entries, p)
  }

  class Expansion {
    var out: map<Protocol, seq<PortRange>>
    var allPorts: set<Protocol>
    ghost var added: seq<ServiceEntry>

    ghost predicate Valid()
      reads this
    {
      && (forall p :: p in out <==> Names(added, p))
      && (forall p :: p in allPorts <==> AllPorts(added, p))
      && (forall p :: p in out ==> out[p] == Expanded(added, p))
    }

    constructor ()
      ensures Valid() && added == []
    {
      out, allPorts, added := map[], {}, [];
    }

    method Add(e: ServiceEntry)
      requires Valid()
      modifies this
      ensures Valid() && added == old(added) + [e]
    {
      NamesAppend(added, e);
      ExpandedAppend(added, e);
      if |e.ports| == 0 {
        allPorts := allPorts + {e.protocol};
        out := out[e.protocol := []];
      } else if e.protocol !in allPorts {
        UnnamedPorts(added, e.protocol);
        var ranges := if e.protocol in out then out[e.protocol] else [];
        out := out[e.protocol := ranges + e.ports];
      }
      added := added + [e];
    }

    method AddAll(entries: seq<ServiceEntry>)
      requires Valid()
      modifies this
      ensures Valid() && added == old(added) + entries
    {
      for i := 0 to |entries|
        invariant Valid() && added == old(added) + entries[..i]
      {
        assert entries[..i + 1] == entries[..i] + [entries[i]];
        Add(entries[i]);
      }
      assert entries[..|entries|] == entries;
    }
  }

  lemma NamesAppend(entries: seq<ServiceEntry>, e: ServiceEntry)
    ensures forall p :: Names(entries + [e], p) <==> Names(entries, p) || e.protocol == p
    ensures forall p :: AllPorts(entries + [e], p) <==> AllPorts(entries, p) || (e.protocol == p && e.ports == [])
  {
    assert forall x :: x in entries + [e] <==> x in entries || x == e;
  }

  lemma ExpandedAppend(entries: seq<ServiceEntry>, e: ServiceEntry)
    ensures forall p :: p != e.protocol ==> Expanded(entries + [e], p) == Expanded(entries, p)
    ensures var p := e.protocol;
            Expanded(entries + [e], p) == if e.ports == [] || AllPorts(entries, p) then []
              else PortsOf(entries, p) + e.ports
  {
    NamesAppend(entries, e);
    assert (entries + [e])[..|entries|] == entries;
    forall p ensures PortsOf(entries + [e], p) == PortsOf(entries, p) + (if e.protocol == p then e.ports else []) {
    }
  }

  lemma {:induction false} UnnamedPorts(entries: seq<ServiceEntry>, p: Protocol)
    ensures !Names(entries, p) ==> PortsOf(entries, p) == []
  {
    if entries != [] {
      UnnamedPorts(entries[..|entries| - 1], p);
      assert entries[|entries| - 1] in entries;
    }
  }

  method ExpandServices(inputs: Inputs, services: map<string, Service>, rule: Rule)
      returns (out: map<Protocol, seq<PortRange>>)
    requires services == ServiceIndex(inputs.services)
    ensures forall p :: p in out <==> Names(RuleEntries(inputs, rule), p)
    ensures forall p :: p in out ==> out[p] == Expanded(RuleEntries(inputs, rule), p)
  {
    var x := new Expansion();
    for i := 0 to |rule.serviceIds|
      invariant x.Valid() && fresh(x) && x.added == ReferencedEntries(services, rule.serviceIds[..i])
    {
      assert rule.serviceIds[..i + 1][..i] == rule.serviceIds[..i];
      if rule.serviceIds[i] in services {
        x.AddAll(services[rule.serviceIds[i]].entries);
      }
    }
    assert rule.serviceIds[..|rule.serviceIds|] == rule.serviceIds;
    x.AddAll(rule.entries);
    out := x.out;
  }

  // ----- Rules and workloads -----

  function RenderedProtocols(): seq<Protocol> {
    [Tcp, Udp, Icmp]
  }

  function RuleOf(inputs: Inputs, rule: Rule, p: Protocol): seq<ResolvedRule> {
    var entries := RuleEntries(inputs, rule);
    if Names(entries, p) then [ResolvedRule(RuleID(rule.id, p), p, AllPeerTexts(inputs, rule.peers),
      Expanded(entries, p))]
    else []
  }

  /** One resolved rule per protocol an authored rule names. */
  function RenderRule(inputs: Inputs, rule: Rule): seq<ResolvedRule> {
    RuleOf(inputs, rule, Tcp) + RuleOf(inputs, rule, Udp) + RuleOf(inputs, rule, Icmp)
  }

  function RenderRules(inputs: Inputs, rules: seq<Rule>): seq<ResolvedRule> {
    if rules == [] then []
    else
      var n := |rules| - 1;
      RenderRules(inputs, rules[..n])
      + (if rules[n].enabled && rules[n].direction == Inbound then RenderRule(inputs, rules[n]) else [])
  }

  function RenderRulesets(inputs: Inputs, rss: seq<Ruleset>, labels: map<string, string>): seq<ResolvedRule> {
    if rss == [] then []
    else
      var n := |rss| - 1;
      RenderRulesets(inputs, rss[..n], labels)
      + (if rss[n].enabled && Matches(rss[n].scope, labels) then RenderRules(inputs, rss[n].rules) else [])
  }

  function RenderedMode(m: Mode): Mode {
    if m == ModeUnspecified then Visibility else m
  }

  function RawPolicy(inputs: Inputs, w: Workload): Policy {
    Policy(0, RenderedMode(w.mode), RenderRulesets(inputs, inputs.rulesets, LabelMap(w.labels)))
  }

  ghost function RenderWorkload(inputs: Inputs, w: Workload): Policy {
    Canonical(RawPolicy(inputs, w))
  }

  /** The policies f gives the active ones of the first n workloads, by id. */
  ghost function Active(ws: seq<Workload>, f: Workload -> Policy, n: nat): map<string, Policy>
    requires n <= |ws|
  {
    if n == 0 then map[]
    else if ws[n - 1].retired then Active(ws, f, n - 1)
    else Active(ws, f, n - 1)[ws[n - 1].id := f(ws[n - 1])]
  }

  ghost function Renderer(inputs: Inputs): Workload -> Policy {
    w => RenderWorkload(inputs, w)
  }

  /** The policies of the active workloads, by id. */
  ghost function Render(inputs: Inputs): map<string, Policy> {
    Active(inputs.workloads, Renderer(inputs), |inputs.workloads|)
  }

  method RenderRuleLoop(inputs: Inputs, services: map<string, Service>, groups: map<string, AddressGroup>,
                        labels: seq<map<string, string>>, rule: Rule) returns (out: seq<ResolvedRule>)
    requires services == ServiceIndex(inputs.services) && groups == GroupIndex(inputs.groups)
    requires |labels| == |inputs.workloads|
    requires forall i :: 0 <= i < |labels| ==> labels[i] == LabelMap(inputs.workloads[i].labels)
    ensures out == RenderRule(inputs, rule)
  {
    var peers := ResolvePeers(inputs, groups, labels, rule.peers);
    var entries := ExpandServices(inputs, services, rule);
    out := [];
    var protocols := RenderedProtocols();
    for i := 0 to |protocols|
      invariant i == 1 ==> out == RuleOf(inputs, rule, Tcp)
      invariant i == 2 ==> out == RuleOf(inputs, rule, Tcp) + RuleOf(inputs, rule, Udp)
      invariant i == 3 ==> out == RenderRule(inputs, rule)
      invariant i == 0 ==> out == []
    {
      var p := protocols[i];
      if p in entries {
        out := out + [ResolvedRule(RuleID(rule.id, p), p, peers, entries[p])];
      }
    }
  }

  method RenderRulesLoop(inputs: Inputs, services: map<string, Service>, groups: map<string, AddressGroup>,
                         labels: seq<map<string, string>>, rules: seq<Rule>) returns (out: seq<ResolvedRule>)
    requires services == ServiceIndex(inputs.services) && groups == GroupIndex(inputs.groups)
    requires |labels| == |inputs.workloads|
    requires forall i :: 0 <= i < |labels| ==> labels[i] == LabelMap(inputs.workloads[i].labels)
    ensures out == RenderRules(inputs, rules)
  {
    out := [];
    for j := 0 to |rules|
      invariant out == RenderRules(inputs, rules[..j])
    {
      assert rules[..j + 1][..j] == rules[..j];
      if !rules[j].enabled || rules[j].direction != Inbound {
        continue;
      }
      var more := RenderRuleLoop(inputs, services, groups, labels, rules[j]);
      out := out + more;
    }
    assert rules[..|rules|] == rules;
  }

  method RenderWorkloadLoop(inputs: Inputs, services: map<string, Service>, groups: map<string, AddressGroup>,
                            labels: seq<map<string, string>>, w: Workload) returns (p: PolicyMessage)
    requires services == ServiceIndex(inputs.services) && groups == GroupIndex(inputs.groups)
    requires |labels| == |inputs.workloads|
    requires forall i :: 0 <= i < |labels| ==> labels[i] == LabelMap(inputs.workloads[i].labels)
    ensures fresh(p) && fresh(p.rules) && p.Value() == RenderWorkload(inputs, w)
  {
    hide Canonical, RenderRules, Matches, LabelMap, ServiceIndex, GroupIndex;
    var mode := if w.mode == ModeUnspecified then Visibility else w.mode;
    var own := LabelMap(w.labels);
    var rules := [];
    for i := 0 to |inputs.rulesets|
      invariant rules == RenderRulesets(inputs, inputs.rulesets[..i], own)
    {
      assert inputs.rulesets[..i + 1][..i] == inputs.rulesets[..i];
      var rs := inputs.rulesets[i];
      var inScope := SelectorMatches(rs.scope, own);
      if !rs.enabled || !inScope {
        continue;
      }
      var more := RenderRulesLoop(inputs, services, groups, labels, rs.rules);
      rules := rules + more;
    }
    assert inputs.rulesets[..|inputs.rulesets|] == inputs.rulesets;
    var raw := NewMessage(Policy(0, mode, rules));
    p := CanonicalCopy(raw);
  }

  method NewMessage(p: Policy) returns (m: PolicyMessage)
    ensures fresh(m) && fresh(m.rules) && m.Value() == p
  {
    var rules: seq<RuleMessage> := [];
    for i := 0 to |p.rules|
      invariant |rules| == i && fresh(rules)
      invariant forall k :: 0 <= k < i ==> rules[k].Value() == p.rules[k]
    {
      var r := p.rules[i];
      var rule := new RuleMessage(r.id, r.protocol, r.peers, r.ports);
      rules := rules + [rule];
    }
    m := new PolicyMessage(p.version, p.mode, rules);
    assert Values(rules) == p.rules;
  }

  method IndexServices(ss: seq<Service>) returns (m: map<string, Service>)
    ensures m == ServiceIndex(ss)
  {
    m := map[];
    for i := 0 to |ss|
      invariant m == ServiceIndex(ss[..i])
    {
      assert ss[..i + 1][..i] == ss[..i];
      m := m[ss[i].id := ss[i]];
    }
    assert ss[..|ss|] == ss;
  }

  method IndexGroups(gs: seq<AddressGroup>) returns (m: map<string, AddressGroup>)
    ensures m == GroupIndex(gs)
  {
    m := map[];
    for i := 0 to |gs|
      invariant m == GroupIndex(gs[..i])
    {
      assert gs[..i + 1][..i] == gs[..i];
      m := m[gs[i].id := gs[i]];
    }
    assert gs[..|gs|] == gs;
  }

  method LabelMaps(ws: seq<Workload>) returns (labels: seq<map<string, string>>)
    ensures |labels| == |ws| && forall i :: 0 <= i < |labels| ==> labels[i] == LabelMap(ws[i].labels)
  {
    labels := [];
    for i := 0 to |ws|
      invariant |labels| == i && forall k :: 0 <= k < i ==> labels[k] == LabelMap(ws[k].labels)
    {
      labels := labels + [LabelMap(ws[i].labels)];
    }
  }

  /** The policy of every active workload. */
  method RenderLoop(inputs: Inputs) returns (out: map<string, Policy>)
    ensures out == Render(inputs)
  {
    hide Renderer;
    var services := IndexServices(inputs.services);
    var groups := IndexGroups(inputs.groups);
    var labels := LabelMaps(inputs.workloads);
    out := map[];
    ghost var f := Renderer(inputs);
    for i := 0 to |inputs.workloads|
      invariant out == Active(inputs.workloads, f, i)
    {
      if inputs.workloads[i].retired {
        continue;
      }
      var p := RenderOne(inputs, services, groups, labels, inputs.workloads[i], f);
      out := out[inputs.workloads[i].id := p];
    }
  }

  method RenderOne(inputs: Inputs, services: map<string, Service>, groups: map<string, AddressGroup>,
                   labels: seq<map<string, string>>, w: Workload, ghost f: Workload -> Policy) returns (p: Policy)
    requires services == ServiceIndex(inputs.services) && groups == GroupIndex(inputs.groups)
    requires |labels| == |inputs.workloads|
    requires forall i :: 0 <= i < |labels| ==> labels[i] == LabelMap(inputs.workloads[i].labels)
    requires f == Renderer(inputs)
    ensures p == f(w)
  {
    var m := RenderWorkloadLoop(inputs, services, groups, labels, w);
    p := m.Value();
  }

  lemma {:induction false} ActiveAt(ws: seq<Workload>, f: Workload -> Policy, n: nat, i: nat)
    requires DistinctWorkloads(ws) && i < n <= |ws|
    ensures !ws[i].retired ==> ws[i].id in Active(ws, f, n) && Active(ws, f, n)[ws[i].id] == f(ws[i])
  {
    if i < n - 1 {
      ActiveAt(ws, f, n - 1, i);
    }
  }

  lemma {:induction false} ActiveOnly(ws: seq<Workload>, f: Workload -> Policy, n: nat)
    requires n <= |ws|
    ensures forall id :: id in Active(ws, f, n) ==> exists w :: w in ws && w.id == id && !w.retired
  {
    if n > 0 {
      ActiveOnly(ws, f, n - 1);
      assert ws[n - 1] in ws;
    }
  }

  /** Exactly the active workloads are rendered, each from its own row. */
  lemma RenderCovers(inputs: Inputs)
    requires DistinctWorkloads(inputs.workloads)
    ensures Render(inputs).Keys == set w | w in inputs.workloads && !w.retired :: w.id
    ensures forall w :: w in inputs.workloads && !w.retired ==> Render(inputs)[w.id] == RenderWorkload(inputs, w)
  {
    var f := Renderer(inputs);
    ActiveOnly(inputs.workloads, f, |inputs.workloads|);
    forall w | w in inputs.workloads && !w.retired
      ensures w.id in Render(inputs) && Render(inputs)[w.id] == f(w)
    {
      var i :| 0 <= i < |inputs.workloads| && inputs.workloads[i] == w;
      ActiveAt(inputs.workloads, f, |inputs.workloads|, i);
    }
  }

  /** A rendered policy carries the mode of its workload, and visibility when the
      workload has none. */
  lemma RenderKeepsMode(inputs: Inputs, w: Workload)
    requires DistinctWorkloads(inputs.workloads) && w in inputs.workloads && !w.retired
    ensures w.id in Render(inputs)
    ensures w.mode == ModeUnspecified ==> Render(inputs)[w.id].mode == Visibility
    ensures w.mode != ModeUnspecified ==> Render(inputs)[w.id].mode == w.mode
  {
    hide Render;
    RenderCovers(inputs);
    CanonicalSays(RawPolicy(inputs, w));
  }

  /** How rendered rule ids are spelled. */
  lemma RuleIDSpelled(authored: string)
    ensures RuleID(authored, Tcp) == authored + "/tcp"
    ensures RuleID(authored, Udp) == authored + "/udp"
    ensures RuleID(authored, Icmp) == authored + "/icmp"
  {
    assert "/" + "tcp" == "/tcp" && "/" + "udp" == "/udp" && "/" + "icmp" == "/icmp";
  }
}
