/** The rendered policy model: what a policy says, its canonical form, the
    difference of two policies and the application of a difference. */
module Rendered {
  import opened Orders
  import opened Addresses

  datatype Mode = ModeUnspecified | Visibility | Simulation | Enforced
  datatype Protocol = ProtocolUnspecified | Tcp | Udp | Icmp

  datatype PortRange = PortRange(start: U32, end: U32)

  datatype ResolvedRule = ResolvedRule(id: string, protocol: Protocol, peers: seq<Text>, ports: seq<PortRange>)

  datatype Policy = Policy(version: nat, mode: Mode, rules: seq<ResolvedRule>)

  /** What an agent holds before its first snapshot. */
  function Empty(): Policy {
    Policy(0, Visibility, [])
  }

  /** What one rule says: a protocol, a set of normalized peers and a set of
      port ranges, where no range means every port. */
  datatype Grant = Grant(protocol: Protocol, peers: set<Text>, ports: set<PortRange>)

  /** What a policy says, whatever order and repetition it is written in. */
  datatype Content = Content(mode: Mode, rules: map<string, Grant>)

  function NormalSet(peers: seq<Text>): set<Text> {
    set t | t in peers :: NormalizeCIDR(t)
  }

  function GrantOf(r: ResolvedRule): Grant {
    Grant(r.protocol, NormalSet(r.peers), Elems(r.ports))
  }

  /** The rules by id; a later rule replaces an earlier one of the same id. */
  function Index(rules: seq<ResolvedRule>): map<string, Grant> {
    if rules == [] then map[]
    else
      var r := rules[|rules| - 1];
      Index(rules[..|rules| - 1])[r.id := GrantOf(r)]
  }

  function ContentOf(p: Policy): Content {
    Content(p.mode, Index(p.rules))
  }

  ghost predicate NormalGrant(g: Grant) {
    forall t :: t in g.peers ==> NormalizeCIDR(t) == t
  }

  ghost predicate NormalRules(rules: map<string, Grant>) {
    forall id :: id in rules ==> NormalGrant(rules[id])
  }

  predicate PortLess(a: PortRange, b: PortRange) {
    a.start < b.start || (a.start == b.start && a.end < b.end)
  }

  lemma PortOrder()
    ensures StrictOrder(PortLess)
  {
  }

  ghost predicate Lists<T>(r: seq<T>, s: set<T>, lt: (T, T) -> bool) {
    Ascending(r, lt) && Elems(r) == s && |r| == |s|
  }

  ghost function PeerListing(s: set<Text>): (r: seq<Text>)
    ensures Ascending(r, TextLess) && Elems(r) == s && |r| == |s|
  {
    PeerListingExists(s);
    var r :| Lists(r, s, TextLess);
    r
  }

  lemma PeerListingExists(s: set<Text>)
    ensures exists r :: Lists(r, s, TextLess)
  {
    TextOrder();
    assert Lists(Listing(s, TextLess), s, TextLess);
  }

  ghost function PortListing(s: set<PortRange>): (r: seq<PortRange>)
    ensures Ascending(r, PortLess) && Elems(r) == s && |r| == |s|
  {
    PortListingExists(s);
    var r :| Lists(r, s, PortLess);
    r
  }

  lemma PortListingExists(s: set<PortRange>)
    ensures exists r :: Lists(r, s, PortLess)
  {
    PortOrder();
    assert Lists(Listing(s, PortLess), s, PortLess);
  }

  ghost function IdListing(s: set<string>): (r: seq<string>)
    ensures Ascending(r, StringLess) && Elems(r) == s && |r| == |s|
  {
    IdListingExists(s);
    var r :| Lists(r, s, StringLess);
    r
  }

  lemma IdListingExists(s: set<string>)
    ensures exists r :: Lists(r, s, StringLess)
  {
    StringOrder();
    assert Lists(Listing(s, StringLess), s, StringLess);
  }

  ghost function RuleFor(id: string, g: Grant): ResolvedRule {
    ResolvedRule(id, g.protocol, PeerListing(g.peers), PortListing(g.ports))
  }

  ghost function RulesFor(ids: seq<string>, rules: map<string, Grant>): (r: seq<ResolvedRule>)
    requires forall i :: 0 <= i < |ids| ==> ids[i] in rules
    ensures |r| == |ids|
    ensures forall i :: 0 <= i < |ids| ==> r[i].id == ids[i] && r[i] == RuleFor(ids[i], rules[ids[i]])
  {
    seq(|ids|, i requires 0 <= i < |ids| => RuleFor(ids[i], rules[ids[i]]))
  }

  /** The canonical way to write a content at a version. */
  ghost function Express(version: nat, c: Content): Policy {
    var ids := IdListing(c.rules.Keys);
    assert forall i :: 0 <= i < |ids| ==> ids[i] in Elems(ids);
    Policy(version, c.mode, RulesFor(ids, c.rules))
  }

  ghost function Canonical(p: Policy): Policy {
    Express(p.version, ContentOf(p))
  }

  ghost predicate CanonicalRule(r: ResolvedRule) {
    && Ascending(r.peers, TextLess)
    && (forall t :: t in r.peers ==> NormalizeCIDR(t) == t)
    && Ascending(r.ports, PortLess)
  }

  /** Rules ascending by id, peers normalized, peers and ports ascending. */
  ghost predicate IsCanonical(p: Policy) {
    && (forall i, j :: 0 <= i < j < |p.rules| ==> StringLess(p.rules[i].id, p.rules[j].id))
    && (forall i :: 0 <= i < |p.rules| ==> CanonicalRule(p.rules[i]))
  }

  /** Content equality, which versions do not enter. */
  ghost predicate Equal(a: Policy, b: Policy) {
    Canonical(a).(version := 0) == Canonical(b).(version := 0)
  }

  // ----- The index and the canonical form -----

  lemma {:induction false} IndexNormal(rules: seq<ResolvedRule>)
    ensures NormalRules(Index(rules))
  {
    if rules != [] {
      IndexNormal(rules[..|rules| - 1]);
      var r := rules[|rules| - 1];
      forall t | t in GrantOf(r).peers ensures NormalizeCIDR(t) == t {
        var u :| u in r.peers && t == NormalizeCIDR(u);
        NormalizeIdempotent(u);
      }
    }
  }

  ghost predicate DistinctIds(rules: seq<ResolvedRule>) {
    forall i, j :: 0 <= i < j < |rules| ==> rules[i].id != rules[j].id
  }

  lemma {:induction false} IndexKeys(rules: seq<ResolvedRule>)
    ensures Index(rules).Keys == set r | r in rules :: r.id
    ensures forall id :: id in Index(rules) ==> exists r :: r in rules && r.id == id && Index(rules)[id] == GrantOf(r)
  {
    if rules != [] {
      var front, last := rules[..|rules| - 1], rules[|rules| - 1];
      IndexKeys(front);
      assert rules == front + [last];
      assert forall r :: r in rules <==> r in front || r == last;
      forall id | id in Index(rules)
        ensures exists r :: r in rules && r.id == id && Index(rules)[id] == GrantOf(r)
      {
        if id != last.id {
          assert id in Index(front);
        } else {
          assert last in rules;
        }
      }
    }
  }

  lemma {:induction false} IndexDistinct(rules: seq<ResolvedRule>)
    requires DistinctIds(rules)
    ensures Index(rules).Keys == set r | r in rules :: r.id
    ensures forall r :: r in rules ==> r.id in Index(rules) && Index(rules)[r.id] == GrantOf(r)
  {
    IndexKeys(rules);
    if rules != [] {
      var front, last := rules[..|rules| - 1], rules[|rules| - 1];
      IndexDistinct(front);
      forall r | r in rules ensures r.id in Index(rules) && Index(rules)[r.id] == GrantOf(r) {
        var i :| 0 <= i < |rules| && rules[i] == r;
        if i < |front| {
          assert r == front[i] && r.id != last.id;
        }
      }
    }
  }

  lemma GrantOfRuleFor(id: string, g: Grant)
    requires NormalGrant(g)
    ensures GrantOf(RuleFor(id, g)) == g
  {
    var peers := PeerListing(g.peers);
    assert forall t :: t in peers <==> t in Elems(peers);
    assert NormalSet(peers) == g.peers by {
      forall t ensures t in NormalSet(peers) <==> t in g.peers {
        if t in g.peers { assert t in peers && NormalizeCIDR(t) == t; }
      }
    }
  }

  lemma AscendingIdsDistinct(rules: seq<ResolvedRule>)
    requires forall i, j :: 0 <= i < j < |rules| ==> StringLess(rules[i].id, rules[j].id)
    ensures DistinctIds(rules)
  {
    forall i, j | 0 <= i < j < |rules| ensures rules[i].id != rules[j].id {
      SeqLessIrreflexive(Codes(rules[i].id));
    }
  }

  lemma ListedIds(s: set<string>)
    ensures var ids := IdListing(s);
            && (forall i :: 0 <= i < |ids| ==> ids[i] in s)
            && (forall id :: id in s ==> exists i :: 0 <= i < |ids| && ids[i] == id)
  {
    var ids := IdListing(s);
    assert forall i :: 0 <= i < |ids| ==> ids[i] in Elems(ids);
    forall id | id in s ensures exists i :: 0 <= i < |ids| && ids[i] == id {
      assert id in Elems(ids);
    }
  }

  lemma ExpressIndexed(version: nat, c: Content)
    ensures var ids, rules := IdListing(c.rules.Keys), Express(version, c).rules;
            && |rules| == |ids|
            && (forall i :: 0 <= i < |ids| ==> ids[i] in c.rules && rules[i] == RuleFor(ids[i], c.rules[ids[i]]))
  {
    ListedIds(c.rules.Keys);
  }

  lemma ExpressDistinct(version: nat, c: Content)
    ensures DistinctIds(Express(version, c).rules)
  {
    ListedIds(c.rules.Keys);
    AscendingIdsDistinct(Express(version, c).rules);
  }

  lemma ExpressShape(version: nat, c: Content)
    requires NormalRules(c.rules)
    ensures IsCanonical(Express(version, c))
  {
    var ids := IdListing(c.rules.Keys);
    var rules := Express(version, c).rules;
    assert forall i :: 0 <= i < |ids| ==> ids[i] in Elems(ids);
    forall i | 0 <= i < |rules| ensures CanonicalRule(rules[i]) {
      RuleForShape(ids[i], c.rules[ids[i]]);
    }
  }

  lemma RuleForShape(id: string, g: Grant)
    requires NormalGrant(g)
    ensures CanonicalRule(RuleFor(id, g))
  {
    var peers := PeerListing(g.peers);
    assert forall t :: t in peers ==> t in Elems(peers);
  }

  lemma ExpressIndex(version: nat, c: Content, id: string)
    requires NormalRules(c.rules) && id in c.rules
    ensures var rules := Express(version, c).rules; id in Index(rules) && Index(rules)[id] == c.rules[id]
  {
    ExpressIndexed(version, c);
    ExpressDistinct(version, c);
    ListedIds(c.rules.Keys);
    var ids, rules := IdListing(c.rules.Keys), Express(version, c).rules;
    IndexDistinct(rules);
    var i :| 0 <= i < |ids| && ids[i] == id;
    assert rules[i] in rules;
    GrantOfRuleFor(id, c.rules[id]);
  }

  lemma ExpressKeys(version: nat, c: Content)
    ensures Index(Express(version, c).rules).Keys <= c.rules.Keys
  {
    ExpressIndexed(version, c);
    var rules := Express(version, c).rules;
    IndexKeys(rules);
  }

  /** The canonical expression of a content is canonical and says it. */
  lemma ExpressSays(version: nat, c: Content)
    requires NormalRules(c.rules)
    ensures ContentOf(Express(version, c)) == c
    ensures IsCanonical(Express(version, c))
  {
    ExpressShape(version, c);
    ExpressKeys(version, c);
    forall id | id in c.rules
      ensures id in Index(Express(version, c).rules) && Index(Express(version, c).rules)[id] == c.rules[id]
    {
      ExpressIndex(version, c, id);
    }
  }

  /** The canonical form says what the policy says, in canonical shape. */
  lemma CanonicalSays(p: Policy)
    ensures ContentOf(Canonical(p)) == ContentOf(p)
    ensures IsCanonical(Canonical(p)) && Canonical(p).version == p.version && Canonical(p).mode == p.mode
    ensures Canonical(Canonical(p)) == Canonical(p)
  {
    IndexNormal(p.rules);
    ExpressSays(p.version, ContentOf(p));
  }

  ghost function Ids(rules: seq<ResolvedRule>): (r: seq<string>)
    ensures |r| == |rules| && forall i :: 0 <= i < |r| ==> r[i] == rules[i].id
  {
    seq(|rules|, i requires 0 <= i < |rules| => rules[i].id)
  }

  lemma IdsUnique(ids: seq<string>, s: set<string>)
    requires Ascending(ids, StringLess) && Elems(ids) == s
    ensures ids == IdListing(s)
  {
    StringOrder();
    AscendingUnique(ids, IdListing(s), StringLess);
  }

  lemma IdsElems(rules: seq<ResolvedRule>)
    ensures Elems(Ids(rules)) == Index(rules).Keys
  {
    IndexKeys(rules);
    var ids := Ids(rules);
    forall id ensures id in Elems(ids) <==> id in Index(rules) {
      if id in Index(rules) {
        var r :| r in rules && r.id == id;
        var i :| 0 <= i < |rules| && rules[i] == r;
        assert ids[i] == id;
      }
      if id in Elems(ids) {
        var i :| 0 <= i < |ids| && ids[i] == id;
        assert rules[i] in rules;
      }
    }
  }

  /** A canonical policy is the only canonical way to say what it says. */
  lemma CanonicalFixed(p: Policy)
    requires IsCanonical(p)
    ensures Canonical(p) == p
  {
    hide CanonicalRule, RuleFor, GrantOf, Index, IdListing;
    AscendingIdsDistinct(p.rules);
    IndexDistinct(p.rules);
    var c, ids := ContentOf(p), Ids(p.rules);
    IdsElems(p.rules);
    IdsUnique(ids, c.rules.Keys);
    ExpressIndexed(p.version, c);
    var q := Canonical(p);
    forall i | 0 <= i < |p.rules| ensures q.rules[i] == p.rules[i] {
      assert p.rules[i] in p.rules && ids[i] == p.rules[i].id;
      CanonicalRuleFixed(p.rules[i]);
    }
  }

  lemma CanonicalRuleFixed(r: ResolvedRule)
    requires CanonicalRule(r)
    ensures RuleFor(r.id, GrantOf(r)) == r
  {
    TextOrder();
    PortOrder();
    assert NormalSet(r.peers) == Elems(r.peers);
    AscendingUnique(r.peers, PeerListing(NormalSet(r.peers)), TextLess);
    AscendingUnique(r.ports, PortListing(Elems(r.ports)), PortLess);
  }

  /** Two policies are equal exactly when they say the same: the mode, and for
      each rule id the protocol, the set of normalized peers and the set of
      port ranges. */
  lemma EqualIffSameContent(a: Policy, b: Policy)
    ensures Equal(a, b) <==> ContentOf(a) == ContentOf(b)
  {
    CanonicalSays(a);
    CanonicalSays(b);
  }

  // ----- What a policy permits -----

  predicate PortIn(port: nat, ranges: set<PortRange>) {
    ranges == {} || exists r :: r in ranges && r.start <= port <= r.end
  }

  predicate GrantPermits(g: Grant, src: Addr, protocol: Protocol, port: nat) {
    g.protocol == protocol && (exists t :: t in g.peers && Covers(t, src)) && PortIn(port, g.ports)
  }

  predicate RulePermits(r: ResolvedRule, src: Addr, protocol: Protocol, port: nat) {
    && r.protocol == protocol
    && (exists t :: t in r.peers && Covers(t, src))
    && (r.ports == [] || exists q :: q in r.ports && q.start <= port <= q.end)
  }

  /** Default deny: a policy permits what some rule of it permits. */
  predicate Permits(p: Policy, src: Addr, protocol: Protocol, port: nat) {
    exists r :: r in p.rules && RulePermits(r, src, protocol, port)
  }

  lemma GrantPermitsAsRule(r: ResolvedRule, src: Addr, protocol: Protocol, port: nat)
    ensures GrantPermits(GrantOf(r), src, protocol, port) <==> RulePermits(r, src, protocol, port)
  {
    forall t | t in r.peers ensures Covers(NormalizeCIDR(t), src) == Covers(t, src) {
      NormalizeKeepsMeaning(t, src);
    }
    assert (exists t :: t in NormalSet(r.peers) && Covers(t, src))
        <==> (exists t :: t in r.peers && Covers(t, src)) by {
      if t :| t in r.peers && Covers(t, src) {
        assert NormalizeCIDR(t) in NormalSet(r.peers);
      }
    }
    assert Elems(r.ports) == {} <==> r.ports == [] by {
      if r.ports != [] { assert r.ports[0] in Elems(r.ports); }
    }
  }

  predicate ContentPermits(c: Content, src: Addr, protocol: Protocol, port: nat) {
    exists id :: id in c.rules && GrantPermits(c.rules[id], src, protocol, port)
  }

  lemma ContentPermitsOnly(p: Policy, src: Addr, protocol: Protocol, port: nat)
    requires ContentPermits(ContentOf(p), src, protocol, port)
    ensures Permits(p, src, protocol, port)
  {
    IndexKeys(p.rules);
    var id :| id in Index(p.rules) && GrantPermits(Index(p.rules)[id], src, protocol, port);
    var s :| s in p.rules && s.id == id && Index(p.rules)[id] == GrantOf(s);
    GrantPermitsAsRule(s, src, protocol, port);
  }

  lemma ContentPermitsAll(p: Policy, src: Addr, protocol: Protocol, port: nat)
    requires DistinctIds(p.rules) && Permits(p, src, protocol, port)
    ensures ContentPermits(ContentOf(p), src, protocol, port)
  {
    IndexDistinct(p.rules);
    var r :| r in p.rules && RulePermits(r, src, protocol, port);
    GrantPermitsAsRule(r, src, protocol, port);
    assert r.id in Index(p.rules);
  }

  /** A canonical policy permits exactly what the content does. */
  lemma CanonicalPermits(p: Policy, src: Addr, protocol: Protocol, port: nat)
    ensures Permits(Canonical(p), src, protocol, port) <==> ContentPermits(ContentOf(p), src, protocol, port)
  {
    CanonicalSays(p);
    AscendingIdsDistinct(Canonical(p).rules);
    if Permits(Canonical(p), src, protocol, port) {
      ContentPermitsAll(Canonical(p), src, protocol, port);
    }
    if ContentPermits(ContentOf(p), src, protocol, port) {
      ContentPermitsOnly(Canonical(p), src, protocol, port);
    }
  }

  /** Canonicalization never widens a policy, and keeps its meaning when no
      rule's id is taken by a later rule. */
  lemma CanonicalKeepsMeaning(p: Policy, src: Addr, protocol: Protocol, port: nat)
    ensures Permits(Canonical(p), src, protocol, port) ==> Permits(p, src, protocol, port)
    ensures DistinctIds(p.rules) ==> (Permits(Canonical(p), src, protocol, port) <==> Permits(p, src, protocol, port))
  {
    CanonicalPermits(p, src, protocol, port);
    if Permits(Canonical(p), src, protocol, port) {
      ContentPermitsOnly(p, src, protocol, port);
    } else if DistinctIds(p.rules) && Permits(p, src, protocol, port) {
      ContentPermitsAll(p, src, protocol, port);
    }
  }

  function SplitPorts(split: bool): Policy {
    Policy(0, Visibility, [ResolvedRule("r/tcp", Tcp, [PrefixText(Prefix(V4(0), 0))],
      if split then [PortRange(1, 5), PortRange(6, 9)] else [PortRange(1, 9)])])
  }

  /** Permitting the same traffic does not make canonical forms equal:
      ports 1-9 in one range or in two. */
  lemma SameTrafficDifferentForms()
    ensures forall src: Addr, protocol, port: nat ::
              Permits(SplitPorts(true), src, protocol, port) == Permits(SplitPorts(false), src, protocol, port)
    ensures !Equal(SplitPorts(true), SplitPorts(false))
  {
    forall src: Addr, protocol, port: nat
      ensures Permits(SplitPorts(true), src, protocol, port) == Permits(SplitPorts(false), src, protocol, port)
    {
      SplitPortsPermit(true, src, protocol, port);
      SplitPortsPermit(false, src, protocol, port);
    }
    EqualIffSameContent(SplitPorts(true), SplitPorts(false));
    var a, b := SplitPorts(true).rules[0], SplitPorts(false).rules[0];
    assert SplitPorts(true).rules[..0] == [] && SplitPorts(false).rules[..0] == [];
    assert Index(SplitPorts(true).rules)["r/tcp"] == GrantOf(a);
    assert Index(SplitPorts(false).rules)["r/tcp"] == GrantOf(b);
    assert a.ports[1] == PortRange(6, 9);
    assert PortRange(6, 9) in GrantOf(a).ports && PortRange(6, 9) !in GrantOf(b).ports;
  }

  lemma SplitPortsPermit(split: bool, src: Addr, protocol: Protocol, port: nat)
    ensures Permits(SplitPorts(split), src, protocol, port) <==>
            protocol == Tcp && Covers(PrefixText(Prefix(V4(0), 0)), src) && 1 <= port <= 9
  {
    var p := SplitPorts(split);
    var r := p.rules[0];
    assert r in p.rules && r.peers[0] in r.peers;
    assert forall s :: s in p.rules ==> s == r;
    assert r.ports[0] in r.ports;
    if split { assert r.ports[1] in r.ports; }
  }

  // ----- Rule for rule -----

  /** Some text of a list normalizes to this one. */
  predicate NamedIn(peers: seq<Text>, t: Text) {
    exists u :: u in peers && t == NormalizeCIDR(u)
  }

  /** Two rules that say the same: id, protocol, normalized peers and ports. */
  ghost predicate SaysSame(r: ResolvedRule, s: ResolvedRule) {
    && r.id == s.id && r.protocol == s.protocol
    && (forall t :: NamedIn(r.peers, t) <==> NamedIn(s.peers, t))
    && (forall x :: x in r.ports <==> x in s.ports)
  }

  lemma SaysSameGrant(r: ResolvedRule, s: ResolvedRule)
    ensures SaysSame(r, s) <==> r.id == s.id && GrantOf(r) == GrantOf(s)
  {
    NormalSetSays(r.peers);
    NormalSetSays(s.peers);
    assert forall x :: x in Elems(r.ports) <==> x in r.ports;
    assert forall x :: x in Elems(s.ports) <==> x in s.ports;
    hide NormalSet, Elems, NamedIn;
    if SaysSame(r, s) {
      assert NormalSet(r.peers) == NormalSet(s.peers);
      assert Elems(r.ports) == Elems(s.ports);
    }
    if r.id == s.id && GrantOf(r) == GrantOf(s) {
      assert NormalSet(r.peers) == NormalSet(s.peers) && Elems(r.ports) == Elems(s.ports);
      forall t ensures NamedIn(r.peers, t) <==> NamedIn(s.peers, t) {
        assert t in NormalSet(r.peers) <==> t in NormalSet(s.peers);
      }
    }
  }

  lemma NormalSetSays(peers: seq<Text>)
    ensures forall t :: t in NormalSet(peers) <==> NamedIn(peers, t)
  {
  }

  /** The last rule of its id. */
  ghost predicate LastOfId(rules: seq<ResolvedRule>, i: int) {
    0 <= i < |rules| && forall j :: i < j < |rules| ==> rules[j].id != rules[i].id
  }

  lemma {:induction false} IndexLast(rules: seq<ResolvedRule>, i: int)
    requires LastOfId(rules, i)
    ensures rules[i].id in Index(rules) && Index(rules)[rules[i].id] == GrantOf(rules[i])
  {
    hide GrantOf;
    var n := |rules| - 1;
    if i < n {
      assert rules[..n][i] == rules[i];
      IndexLast(rules[..n], i);
    }
  }

  /** In canonical form the last rule of each id says what it did. */
  lemma CanonicalKeepsLastRules(p: Policy, i: int)
    requires LastOfId(p.rules, i)
    ensures exists k :: 0 <= k < |Canonical(p).rules| && SaysSame(Canonical(p).rules[k], p.rules[i])
  {
    hide GrantOf, Index, SaysSame, IdListing;
    var q, id := Canonical(p), p.rules[i].id;
    IndexLast(p.rules, i);
    IndexNormal(p.rules);
    ExpressIndexed(p.version, ContentOf(p));
    ListedIds(ContentOf(p).rules.Keys);
    var k :| 0 <= k < |IdListing(ContentOf(p).rules.Keys)| && IdListing(ContentOf(p).rules.Keys)[k] == id;
    GrantOfRuleFor(id, ContentOf(p).rules[id]);
    SaysSameGrant(q.rules[k], p.rules[i]);
  }

  /** And nothing else is in it. */
  lemma CanonicalOnlyLastRules(p: Policy, k: int)
    requires 0 <= k < |Canonical(p).rules|
    ensures exists i :: LastOfId(p.rules, i) && SaysSame(Canonical(p).rules[k], p.rules[i])
  {
    hide GrantOf, Index, SaysSame, IdListing;
    var q := Canonical(p);
    IndexNormal(p.rules);
    ExpressIndexed(p.version, ContentOf(p));
    var id := IdListing(ContentOf(p).rules.Keys)[k];
    LastExists(p.rules, id);
    var i :| LastOfId(p.rules, i) && p.rules[i].id == id;
    IndexLast(p.rules, i);
    GrantOfRuleFor(id, ContentOf(p).rules[id]);
    SaysSameGrant(q.rules[k], p.rules[i]);
  }

  lemma {:induction false} LastExists(rules: seq<ResolvedRule>, id: string)
    requires id in Index(rules)
    ensures exists i :: LastOfId(rules, i) && rules[i].id == id
  {
    var n := |rules| - 1;
    if rules[n].id == id {
      assert LastOfId(rules, n);
    } else {
      LastExists(rules[..n], id);
      var i :| LastOfId(rules[..n], i) && rules[..n][i].id == id;
      assert LastOfId(rules, i) && rules[i].id == id;
    }
  }

  ghost predicate RulesWithin(a: seq<ResolvedRule>, b: seq<ResolvedRule>) {
    forall i :: LastOfId(a, i) ==> exists j :: LastOfId(b, j) && SaysSame(a[i], b[j])
  }

  /** Equality, in terms of the policies as they are written: the same mode, and
      for each rule, the last of its id, one in the other that says the same. */
  lemma EqualIffSameRules(a: Policy, b: Policy)
    ensures Equal(a, b) <==> a.mode == b.mode && RulesWithin(a.rules, b.rules) && RulesWithin(b.rules, a.rules)
  {
    hide Equal, Index;
    EqualIffSameContent(a, b);
    if Index(a.rules) == Index(b.rules) {
      SameIndexWithin(a.rules, b.rules);
      SameIndexWithin(b.rules, a.rules);
    }
    if RulesWithin(a.rules, b.rules) && RulesWithin(b.rules, a.rules) {
      WithinIndex(a.rules, b.rules);
      WithinIndex(b.rules, a.rules);
    }
  }

  lemma SameIndexWithin(a: seq<ResolvedRule>, b: seq<ResolvedRule>)
    requires Index(a) == Index(b)
    ensures RulesWithin(a, b)
  {
    hide GrantOf, Index, SaysSame;
    forall i | LastOfId(a, i) ensures exists j :: LastOfId(b, j) && SaysSame(a[i], b[j]) {
      IndexLast(a, i);
      LastExists(b, a[i].id);
      var j :| LastOfId(b, j) && b[j].id == a[i].id;
      IndexLast(b, j);
      SaysSameGrant(a[i], b[j]);
    }
  }

  lemma WithinIndex(a: seq<ResolvedRule>, b: seq<ResolvedRule>)
    requires RulesWithin(a, b)
    ensures forall id :: id in Index(a) ==> id in Index(b) && Index(b)[id] == Index(a)[id]
  {
    hide GrantOf, Index, SaysSame;
    forall id | id in Index(a) ensures id in Index(b) && Index(b)[id] == Index(a)[id] {
      LastExists(a, id);
      var i :| LastOfId(a, i) && a[i].id == id;
      var j :| LastOfId(b, j) && SaysSame(a[i], b[j]);
      IndexLast(a, i);
      IndexLast(b, j);
      SaysSameGrant(a[i], b[j]);
    }
  }
}
