/** The authored model a render reads, and what it says about traffic. */
module Authored {
  import opened Addresses
  import opened Rendered

  datatype Label = Label(key: string, value: string)

  datatype Workload = Workload(id: string, retired: bool, labels: seq<Label>, mode: Mode, addresses: seq<Addr>)

  datatype Direction = DirectionUnspecified | Inbound | Outbound

  type Selector = map<string, seq<string>>

  datatype Peer =
    | PeerUnspecified
    | PeerWorkloads(selector: Selector)
    | PeerAddressGroup(group: string)
    | PeerCIDR(text: Text)

  datatype ServiceEntry = ServiceEntry(protocol: Protocol, ports: seq<PortRange>)

  datatype Service = Service(id: string, version: nat, entries: seq<ServiceEntry>)

  datatype AddressGroup = AddressGroup(id: string, version: nat, cidrs: seq<Text>)

  datatype Rule = Rule(id: string, direction: Direction, enabled: bool, peers: seq<Peer>,
                       serviceIds: seq<string>, entries: seq<ServiceEntry>)

  datatype Ruleset = Ruleset(id: string, version: nat, enabled: bool, scope: Selector, rules: seq<Rule>)

  /** Everything a render reads, from one instant. */
  datatype Inputs = Inputs(workloads: seq<Workload>, rulesets: seq<Ruleset>,
                           services: seq<Service>, groups: seq<AddressGroup>)

  /** A workload's labels by key; a later label takes the key. */
  function LabelMap(labels: seq<Label>): map<string, string> {
    if labels == [] then map[]
    else
      var n := |labels| - 1;
      LabelMap(labels[..n])[labels[n].key := labels[n].value]
  }

  /** Every key must match, with one of its values; nothing matches nothing. */
  predicate Matches(s: Selector, labels: map<string, string>) {
    s != map[] && forall key :: key in s ==> key in labels && labels[key] in s[key]
  }

  method SelectorMatches(s: Selector, labels: map<string, string>) returns (r: bool)
    ensures r <==> Matches(s, labels)
  {
    if |s| == 0 {
      return false;
    }
    var todo := s.Keys;
    while todo != {}
      invariant todo <= s.Keys
      invariant forall key :: key in s.Keys - todo ==> key in labels && labels[key] in s[key]
    {
      var key :| key in todo;
      if key !in labels {
        return false;
      }
      var values, matched := s[key], false;
      for i := 0 to |values|
        invariant !matched && labels[key] !in values[..i]
      {
        if values[i] == labels[key] {
          matched := true;
          break;
        }
      }
      if !matched {
        return false;
      }
      todo := todo - {key};
    }
    return true;
  }

  // ----- What the authored model permits -----

  predicate Covered(port: nat, ports: seq<PortRange>) {
    ports == [] || exists r :: r in ports && r.start <= port <= r.end
  }

  /** Who a peer admits: the current addresses of the active workloads it
      selects, a group's ranges, or a literal range. A retired workload is
      nobody's peer. */
  predicate PeerAdmits(inputs: Inputs, peer: Peer, src: Addr) {
    match peer
    case PeerUnspecified => false
    case PeerWorkloads(selector) =>
      exists w :: w in inputs.workloads && !w.retired && Matches(selector, LabelMap(w.labels))
                  && exists a :: a in w.addresses && src == a.Unmap().WithoutZone()
    case PeerAddressGroup(id) =>
      exists g :: g in inputs.groups && g.id == id && exists t :: t in g.cidrs && Covers(t, src)
    case PeerCIDR(t) => Covers(t, src)
  }

  /** An entry a rule names, inline or through a service it references. */
  predicate Offers(inputs: Inputs, rule: Rule, e: ServiceEntry) {
    || e in rule.entries
    || exists s :: s in inputs.services && s.id in rule.serviceIds && e in s.entries
  }

  predicate Applies(rs: Ruleset, rule: Rule, labels: map<string, string>) {
    rule in rs.rules && rs.enabled && Matches(rs.scope, labels) && rule.enabled && rule.direction == Inbound
  }

  ghost predicate RuleAdmits(inputs: Inputs, rule: Rule, src: Addr, protocol: Protocol, port: nat) {
    && (exists peer :: peer in rule.peers && PeerAdmits(inputs, peer, src))
    && exists e :: Offers(inputs, rule, e) && e.protocol == protocol && Covered(port, e.ports)
  }

  /** The meaning of the authored model for a workload with these labels. */
  ghost predicate AuthoredPermits(inputs: Inputs, labels: map<string, string>, src: Addr, protocol: Protocol,
      port: nat) {
    exists rs, rule ::
      rs in inputs.rulesets && Applies(rs, rule, labels) && RuleAdmits(inputs, rule, src, protocol, port)
  }

  // ----- What storage guarantees of the inputs -----

  ghost predicate DistinctWorkloads(ws: seq<Workload>) {
    forall i, j :: 0 <= i < j < |ws| ==> ws[i].id != ws[j].id
  }

  ghost predicate DistinctServices(ss: seq<Service>) {
    forall i, j :: 0 <= i < j < |ss| ==> ss[i].id != ss[j].id
  }

  ghost predicate DistinctGroups(gs: seq<AddressGroup>) {
    forall i, j :: 0 <= i < j < |gs| ==> gs[i].id != gs[j].id
  }

  /** No two rule rows share an id, in one ruleset or across rulesets. */
  ghost predicate DistinctRules(rss: seq<Ruleset>) {
    forall i, j, k, l :: (
        0 <= i < |rss| && 0 <= j < |rss| && 0 <= k < |rss[i].rules| && 0 <= l < |rss[j].rules|
        && rss[i].rules[k].id == rss[j].rules[l].id
      ) ==> i == j && k == l
  }

  ghost predicate DistinctObjects(inputs: Inputs) {
    DistinctServices(inputs.services) && DistinctGroups(inputs.groups)
  }

  /** Of labels with one key the last is the workload's. */
  lemma {:induction false} LastLabelStands(labels: seq<Label>, i: nat)
    requires i < |labels| && forall j :: i < j < |labels| ==> labels[j].key != labels[i].key
    ensures labels[i].key in LabelMap(labels) && LabelMap(labels)[labels[i].key] == labels[i].value
  {
    var n := |labels| - 1;
    if i < n {
      assert labels[..n][i] == labels[i];
      LastLabelStands(labels[..n], i);
    }
  }

  /** Nothing matches nothing, every further key narrows, and every further value
      of a key widens. */
  lemma SelectorLaws(s: Selector, labels: map<string, string>, key: string, values: seq<string>, value: string)
    requires key !in s
    ensures !Matches(map[], labels)
    ensures Matches(s[key := values], labels) <==>
              (s == map[] || Matches(s, labels)) && key in labels && labels[key] in values
    ensures Matches(s[key := values + [value]], labels) <==>
              Matches(s[key := values], labels) || Matches(s[key := [value]], labels)
  {
    assert s[key := values] != map[] && s[key := [value]] != map[] && s[key := values + [value]] != map[] by {
      assert key in s[key := values] && key in s[key := [value]] && key in s[key := values + [value]];
    }
    assert forall k :: k in s ==> k in s[key := values] && s[key := values][k] == s[k];
    assert forall k :: k in s ==> k in s[key := [value]] && s[key := [value]][k] == s[k];
    assert forall k :: k in s ==> k in s[key := values + [value]] && s[key := values + [value]][k] == s[k];
  }
}
