/** The delta algebra: the difference of two policies, its application, and
    the laws that tie the two together. */
module Deltas {
  import opened Orders
  import opened Addresses
  import opened Rendered

  datatype Change =
    | UpsertRule(rule: ResolvedRule)
    | RemoveRule(id: string)
    | AddPeers(id: string, peers: seq<Text>)
    | RemovePeers(id: string, peers: seq<Text>)
    | SetMode(mode: Mode)
    | Unset

  datatype Delta = Delta(from: nat, to: nat, changes: seq<Change>)

  datatype ApplyError = BaseMismatch | UnknownRule(at: nat) | MalformedChange(at: nat)
  datatype Result<+T> = Ok(value: T) | Err(error: ApplyError)

  // ----- Difference -----

  ghost function RuleDiff(id: string, from: map<string, Grant>, to: map<string, Grant>): seq<Change>
    requires id in from || id in to
  {
    if id !in from then [UpsertRule(RuleFor(id, to[id]))]
    else if id !in to then [RemoveRule(id)]
    else if from[id].protocol != to[id].protocol || from[id].ports != to[id].ports
      then [UpsertRule(RuleFor(id, to[id]))]
    else
      AddPart(id, to[id].peers - from[id].peers) + RemovePart(id, from[id].peers - to[id].peers)
  }

  ghost function AddPart(id: string, added: set<Text>): seq<Change> {
    if added == {} then [] else [AddPeers(id, PeerListing(added))]
  }

  ghost function RemovePart(id: string, removed: set<Text>): seq<Change> {
    if removed == {} then [] else [RemovePeers(id, PeerListing(removed))]
  }

  ghost function RulesDiff(ids: seq<string>, from: map<string, Grant>, to: map<string, Grant>): seq<Change>
    requires forall i :: 0 <= i < |ids| ==> ids[i] in from || ids[i] in to
  {
    if ids == [] then []
    else RulesDiff(ids[..|ids| - 1], from, to) + RuleDiff(ids[|ids| - 1], from, to)
  }

  ghost function ModeDiff(from: Mode, to: Mode): seq<Change> {
    if from == to then [] else [SetMode(to)]
  }

  ghost function AllIds(from: Content, to: Content): (ids: seq<string>)
    ensures forall i :: 0 <= i < |ids| ==> ids[i] in from.rules || ids[i] in to.rules
    ensures forall id :: id in from.rules || id in to.rules ==> id in ids
    ensures forall i, j :: 0 <= i < j < |ids| ==> ids[i] != ids[j]
  {
    ListedIds(from.rules.Keys + to.rules.Keys);
    IdListingDistinct(from.rules.Keys + to.rules.Keys);
    IdListing(from.rules.Keys + to.rules.Keys)
  }

  lemma IdListingDistinct(s: set<string>)
    ensures forall i, j :: 0 <= i < j < |IdListing(s)| ==> IdListing(s)[i] != IdListing(s)[j]
  {
    var ids := IdListing(s);
    forall i, j | 0 <= i < j < |ids| ensures ids[i] != ids[j] {
      SeqLessIrreflexive(Codes(ids[i]));
    }
  }

  /** A mode change first, then rule changes by rule id. */
  ghost function ContentDiff(from: Content, to: Content): seq<Change> {
    ModeDiff(from.mode, to.mode) + RulesDiff(AllIds(from, to), from.rules, to.rules)
  }

  ghost function Diff(from: Policy, to: Policy): seq<Change> {
    ContentDiff(ContentOf(from), ContentOf(to))
  }

  ghost function DeltaOf(from: Policy, to: Policy): Delta {
    Delta(from.version, to.version, Diff(from, to))
  }

  // ----- Application -----

  ghost function ApplyChange(c: Content, ch: Change, at: nat): Result<Content> {
    match ch
    case UpsertRule(r) => Ok(c.(rules := c.rules[r.id := GrantOf(r)]))
    case RemoveRule(id) => Ok(c.(rules := c.rules - {id}))
    case AddPeers(id, peers) =>
      if id !in c.rules then Err(UnknownRule(at))
      else Ok(c.(rules := c.rules[id := c.rules[id].(peers := c.rules[id].peers + NormalSet(peers))]))
    case RemovePeers(id, peers) =>
      if id !in c.rules then Err(UnknownRule(at))
      else Ok(c.(rules := c.rules[id := c.rules[id].(peers := c.rules[id].peers - NormalSet(peers))]))
    case SetMode(mode) => Ok(c.(mode := mode))
    case Unset => Err(MalformedChange(at))
  }

  ghost function ApplyChanges(c: Content, changes: seq<Change>): Result<Content> {
    if changes == [] then Ok(c)
    else
      var n := |changes| - 1;
      match ApplyChanges(c, changes[..n])
      case Err(e) => Err(e)
      case Ok(d) => ApplyChange(d, changes[n], n)
  }

  ghost function Apply(base: Policy, delta: Delta): Result<Policy> {
    if base.version != delta.from then Err(BaseMismatch)
    else
      match ApplyChanges(ContentOf(base), delta.changes)
      case Err(e) => Err(e)
      case Ok(c) => Ok(Express(delta.to, c))
  }

  // ----- Applying a difference -----

  lemma {:induction false} ApplyConcat(c: Content, d: Content, a: seq<Change>, b: seq<Change>)
    requires ApplyChanges(c, a) == Ok(d)
    ensures ApplyChanges(d, b).Ok? ==> ApplyChanges(c, a + b) == ApplyChanges(d, b)
  {
    if b == [] {
      assert a + b == a;
    } else {
      var n := |b| - 1;
      ApplyConcat(c, d, a, b[..n]);
      assert (a + b)[..|a + b| - 1] == a + b[..n];
    }
  }

  lemma ApplyOne(c: Content, ch: Change)
    ensures ApplyChanges(c, [ch]) == ApplyChange(c, ch, 0)
  {
    assert [ch][..0] == [];
    assert ApplyChanges(c, []) == Ok(c);
  }

  /** The rules of `rules` with `id` as in `to`. */
  ghost function SetAs(rules: map<string, Grant>, id: string, to: map<string, Grant>): map<string, Grant> {
    if id in to then rules[id := to[id]] else rules - {id}
  }

  ghost predicate AgreeAt(a: map<string, Grant>, b: map<string, Grant>, id: string) {
    (id in a <==> id in b) && (id in a ==> a[id] == b[id])
  }

  lemma NormalListing(s: set<Text>)
    requires forall t :: t in s ==> NormalizeCIDR(t) == t
    ensures NormalSet(PeerListing(s)) == s
  {
    var l := PeerListing(s);
    assert forall t :: t in l <==> t in Elems(l);
    forall t ensures t in NormalSet(l) <==> t in s {
      if t in s { assert t in l && NormalizeCIDR(t) == t; }
    }
  }

  /** The changes for one rule id bring that rule to its target and touch
      nothing else. */
  lemma RuleDiffApplies(c: Content, id: string, from: map<string, Grant>, to: map<string, Grant>)
    requires id in from || id in to
    requires NormalRules(from) && NormalRules(to) && AgreeAt(c.rules, from, id)
    ensures ApplyChanges(c, RuleDiff(id, from, to)) == Ok(c.(rules := SetAs(c.rules, id, to)))
  {
    var changes := RuleDiff(id, from, to);
    if id !in from || id !in to || from[id].protocol != to[id].protocol || from[id].ports != to[id].ports {
      ApplyOne(c, changes[0]);
      if id in to { GrantOfRuleFor(id, to[id]); }
    } else {
      PeerDiffApplies(c, id, from[id], to[id]);
    }
  }

  lemma AddPartApplies(c: Content, id: string, g: Grant, added: set<Text>)
    requires id in c.rules && c.rules[id] == g
    requires forall t :: t in added ==> NormalizeCIDR(t) == t
    ensures ApplyChanges(c, AddPart(id, added)) == Ok(c.(rules := c.rules[id := g.(peers := g.peers + added)]))
  {
    if added == {} {
      assert g.peers + added == g.peers;
      assert c.rules[id := g] == c.rules;
    } else {
      var l := PeerListing(added);
      NormalListing(added);
      ApplyOne(c, AddPeers(id, l));
      hide NormalSet, PeerListing, NormalizeCIDR, ApplyChanges;
      assert AddPart(id, added) == [AddPeers(id, l)];
      assert ApplyChange(c, AddPeers(id, l), 0) == Ok(c.(rules := c.rules[id := g.(peers := g.peers + NormalSet(l))]));
    }
  }

  lemma RemovePartApplies(c: Content, id: string, g: Grant, removed: set<Text>)
    requires id in c.rules && c.rules[id] == g
    requires forall t :: t in removed ==> NormalizeCIDR(t) == t
    ensures ApplyChanges(c, RemovePart(id, removed)) == Ok(c.(rules := c.rules[id := g.(peers := g.peers - removed)]))
  {
    NormalListing(removed);
    hide NormalSet, PeerListing, NormalizeCIDR;
    if removed == {} {
      assert g.peers - removed == g.peers;
      assert c.rules[id := g] == c.rules;
    } else {
      ApplyOne(c, RemovePart(id, removed)[0]);
    }
  }

  lemma PeerDiffApplies(c: Content, id: string, was: Grant, now: Grant)
    requires NormalGrant(was) && NormalGrant(now) && was.protocol == now.protocol && was.ports == now.ports
    requires id in c.rules && c.rules[id] == was
    ensures ApplyChanges(c, AddPart(id, now.peers - was.peers) + RemovePart(id, was.peers - now.peers))
            == Ok(c.(rules := c.rules[id := now]))
  {
    var added, removed := now.peers - was.peers, was.peers - now.peers;
    AddPartApplies(c, id, was, added);
    var g := was.(peers := was.peers + added);
    var mid := c.(rules := c.rules[id := g]);
    RemovePartApplies(mid, id, g, removed);
    assert g.(peers := g.peers - removed) == now by {
      assert was.peers + added - removed == now.peers;
    }
    assert mid.rules[id := now] == c.rules[id := now];
    ApplyConcat(c, mid, AddPart(id, added), RemovePart(id, removed));
  }

  /** The rules once the first ids have been brought to their target. */
  ghost function Moved(rules: map<string, Grant>, ids: seq<string>, to: map<string, Grant>): map<string, Grant> {
    if ids == [] then rules else SetAs(Moved(rules, ids[..|ids| - 1], to), ids[|ids| - 1], to)
  }

  lemma {:induction false} MovedAt(rules: map<string, Grant>, ids: seq<string>, to: map<string, Grant>, id: string)
    ensures AgreeAt(Moved(rules, ids, to), if id in ids then to else rules, id)
  {
    if ids != [] {
      MovedAt(rules, ids[..|ids| - 1], to, id);
      assert ids == ids[..|ids| - 1] + [ids[|ids| - 1]];
    }
  }

  lemma {:induction false} RulesDiffApplies(c: Content, ids: seq<string>, from: map<string, Grant>,
      to: map<string, Grant>)
    requires forall i :: 0 <= i < |ids| ==> ids[i] in from || ids[i] in to
    requires forall i, j :: 0 <= i < j < |ids| ==> ids[i] != ids[j]
    requires NormalRules(from) && NormalRules(to) && c.rules == from
    ensures ApplyChanges(c, RulesDiff(ids, from, to)) == Ok(c.(rules := Moved(from, ids, to)))
  {
    if ids != [] {
      var front, id := ids[..|ids| - 1], ids[|ids| - 1];
      RulesDiffApplies(c, front, from, to);
      var d := c.(rules := Moved(from, front, to));
      MovedAt(from, front, to, id);
      assert id !in front;
      RuleDiffApplies(d, id, from, to);
      ApplyConcat(c, d, RulesDiff(front, from, to), RuleDiff(id, from, to));
    }
  }

  lemma AgreeEverywhere(a: map<string, Grant>, b: map<string, Grant>)
    requires forall id :: AgreeAt(a, b, id)
    ensures a == b
  {
    assert forall id :: id in a ==> AgreeAt(a, b, id);
    assert forall id :: id in b ==> AgreeAt(a, b, id);
  }

  lemma MovedAll(from: Content, to: Content)
    ensures Moved(from.rules, AllIds(from, to), to.rules) == to.rules
  {
    var ids := AllIds(from, to);
    forall id ensures AgreeAt(Moved(from.rules, ids, to.rules), to.rules, id) {
      MovedAt(from.rules, ids, to.rules, id);
    }
    AgreeEverywhere(Moved(from.rules, ids, to.rules), to.rules);
  }

  lemma ModeDiffApplies(from: Content, mode: Mode)
    ensures ApplyChanges(from, ModeDiff(from.mode, mode)) == Ok(from.(mode := mode))
  {
    if from.mode != mode { ApplyOne(from, SetMode(mode)); }
  }

  lemma ContentDiffApplies(from: Content, to: Content)
    requires NormalRules(from.rules) && NormalRules(to.rules)
    ensures ApplyChanges(from, ContentDiff(from, to)) == Ok(to)
  {
    var ids := AllIds(from, to);
    var mid := from.(mode := to.mode);
    ModeDiffApplies(from, to.mode);
    RulesDiffApplies(mid, ids, from.rules, to.rules);
    MovedAll(from, to);
    ApplyConcat(from, mid, ModeDiff(from.mode, to.mode), RulesDiff(ids, from.rules, to.rules));
  }

  /** The contract's defining law, for every pair of policies and every base
      that says what `p` says at its version: applying the delta from p to q
      succeeds and yields the canonical q. */
  lemma DeltaRoundTrip(base: Policy, p: Policy, q: Policy)
    requires base.version == p.version && ContentOf(base) == ContentOf(p)
    ensures Apply(base, DeltaOf(p, q)) == Ok(Canonical(q))
  {
    IndexNormal(p.rules);
    IndexNormal(q.rules);
    ContentDiffApplies(ContentOf(p), ContentOf(q));
  }

  ghost function ApplyAll(base: Policy, deltas: seq<Delta>): Result<Policy>
    decreases deltas
  {
    if deltas == [] then Ok(base)
    else
      match Apply(base, deltas[0])
      case Err(e) => Err(e)
      case Ok(next) => ApplyAll(next, deltas[1..])
  }

  ghost function Chain(ps: seq<Policy>): seq<Delta>
    requires |ps| > 0
  {
    seq(|ps| - 1, i requires 0 <= i < |ps| - 1 => DeltaOf(ps[i], ps[i + 1]))
  }

  /** Any chain of deltas does what the one coalesced delta does. */
  lemma {:induction false} ChainCoalesces(base: Policy, ps: seq<Policy>)
    requires |ps| >= 2
    requires base.version == ps[0].version && ContentOf(base) == ContentOf(ps[0])
    ensures ApplyAll(base, Chain(ps)) == Apply(base, DeltaOf(ps[0], ps[|ps| - 1])) == Ok(Canonical(ps[|ps| - 1]))
    decreases |ps|
  {
    DeltaRoundTrip(base, ps[0], ps[1]);
    DeltaRoundTrip(base, ps[0], ps[|ps| - 1]);
    ChainTail(ps);
    if |ps| > 2 {
      CanonicalSays(ps[1]);
      ChainCoalesces(Canonical(ps[1]), ps[1..]);
    }
  }

  lemma ChainTail(ps: seq<Policy>)
    requires |ps| >= 2
    ensures |Chain(ps)| == |ps| - 1 && Chain(ps)[0] == DeltaOf(ps[0], ps[1]) && Chain(ps)[1..] == Chain(ps[1..])
  {
    var a, b := Chain(ps)[1..], Chain(ps[1..]);
    forall i | 0 <= i < |b| ensures a[i] == b[i] {
      assert a[i] == DeltaOf(ps[i + 1], ps[i + 2]);
    }
  }

  // ----- Emptiness -----

  lemma RuleDiffEmpty(id: string, from: map<string, Grant>, to: map<string, Grant>)
    requires id in from || id in to
    ensures RuleDiff(id, from, to) == [] <==> AgreeAt(from, to, id)
  {
    if id in from && id in to {
      SetsDiffer(from[id].peers, to[id].peers);
    }
  }

  lemma SetsDiffer<T>(a: set<T>, b: set<T>)
    ensures a == b <==> a - b == {} && b - a == {}
  {
    if a - b == {} && b - a == {} {
      assert forall t :: t in a ==> t !in a - b;
      assert forall t :: t in b ==> t !in b - a;
    }
  }

  lemma {:induction false} RulesDiffEmpty(ids: seq<string>, from: map<string, Grant>, to: map<string, Grant>)
    requires forall i :: 0 <= i < |ids| ==> ids[i] in from || ids[i] in to
    ensures RulesDiff(ids, from, to) == [] <==> forall i :: 0 <= i < |ids| ==> AgreeAt(from, to, ids[i])
  {
    if ids != [] {
      RulesDiffEmpty(ids[..|ids| - 1], from, to);
      RuleDiffEmpty(ids[|ids| - 1], from, to);
    }
  }

  lemma ContentDiffEmpty(from: Content, to: Content)
    ensures ContentDiff(from, to) == [] <==> from == to
  {
    var ids := AllIds(from, to);
    RulesDiffEmpty(ids, from.rules, to.rules);
    if ContentDiff(from, to) == [] {
      forall id ensures AgreeAt(from.rules, to.rules, id) {
        if id in from.rules || id in to.rules {
          var i :| 0 <= i < |ids| && ids[i] == id;
        }
      }
      AgreeEverywhere(from.rules, to.rules);
    }
  }

  /** A difference is empty exactly when the two policies are equal. */
  lemma DiffEmptyIffEqual(p: Policy, q: Policy)
    ensures Diff(p, q) == [] <==> Equal(p, q)
  {
    EqualIffSameContent(p, q);
    ContentDiffEmpty(ContentOf(p), ContentOf(q));
  }

  // ----- Irredundancy -----

  /** The kept changes of a difference, in order. */
  ghost function Select(changes: seq<Change>, keep: seq<bool>): seq<Change>
    requires |changes| == |keep|
  {
    if changes == [] then []
    else
      var n := |changes| - 1;
      Select(changes[..n], keep[..n]) + (if keep[n] then [changes[n]] else [])
  }

  /** Whether content x already has what a change is there to bring about. */
  ghost predicate Achieved(ch: Change, to: Content, x: Content) {
    match ch
    case UpsertRule(r) => AgreeAt(x.rules, to.rules, r.id)
    case RemoveRule(id) => AgreeAt(x.rules, to.rules, id)
    case AddPeers(id, peers) => id in x.rules && NormalSet(peers) <= x.rules[id].peers
    case RemovePeers(id, peers) => id in x.rules && NormalSet(peers) !! x.rules[id].peers
    case SetMode(mode) => x.mode == to.mode
    case Unset => true
  }

  ghost function Touched(ch: Change): set<string> {
    match ch
    case UpsertRule(r) => {r.id}
    case RemoveRule(id) => {id}
    case AddPeers(id, _) => {id}
    case RemovePeers(id, _) => {id}
    case SetMode(_) => {}
    case Unset => {}
  }

  /** Neither change can bring about what the other is there for. */
  ghost predicate Independent(a: Change, b: Change) {
    || (a.AddPeers? && b.RemovePeers?)
    || (a.RemovePeers? && b.AddPeers?)
    || (Touched(a) !! Touched(b) && !(a.SetMode? && b.SetMode?))
  }

  lemma UndoneStays(ch: Change, other: Change, to: Content, x: Content, at: nat)
    requires Independent(ch, other) && !Achieved(ch, to, x)
    ensures ApplyChange(x, other, at).Ok? ==> !Achieved(ch, to, ApplyChange(x, other, at).value)
  {
    if ApplyChange(x, other, at).Ok? {
      var y := ApplyChange(x, other, at).value;
      if Touched(ch) !! Touched(other) {
        forall id | id in Touched(ch) ensures AgreeAt(x.rules, y.rules, id) {}
      }
    }
  }

  lemma {:induction false} SelectLeavesUndone(from: Content, to: Content, changes: seq<Change>, keep: seq<bool>,
      ch: Change, x: Content)
    requires |changes| == |keep| && !Achieved(ch, to, from)
    requires forall j :: 0 <= j < |changes| && keep[j] ==> Independent(ch, changes[j])
    requires ApplyChanges(from, Select(changes, keep)) == Ok(x)
    ensures !Achieved(ch, to, x)
  {
    if changes != [] {
      var n := |changes| - 1;
      var front := Select(changes[..n], keep[..n]);
      if keep[n] {
        assert (front + [changes[n]])[..|front|] == front;
        var y := ApplyChanges(from, front).value;
        SelectLeavesUndone(from, to, changes[..n], keep[..n], ch, y);
        UndoneStays(ch, changes[n], to, y, |front|);
      } else {
        assert front + [] == front;
        SelectLeavesUndone(from, to, changes[..n], keep[..n], ch, x);
      }
    }
  }

  lemma RuleDiffNeeded(id: string, from: Content, to: Content, ch: Change)
    requires id in from.rules || id in to.rules
    requires NormalRules(from.rules) && NormalRules(to.rules)
    requires ch in RuleDiff(id, from.rules, to.rules)
    ensures !Achieved(ch, to, from) && Touched(ch) == {id} && !ch.SetMode?
  {
    if ch.AddPeers? {
      NormalListing(to.rules[id].peers - from.rules[id].peers);
    } else if ch.RemovePeers? {
      NormalListing(from.rules[id].peers - to.rules[id].peers);
    }
  }

  lemma {:induction false} RulesDiffNeeded(ids: seq<string>, from: Content, to: Content, ch: Change)
    requires forall i :: 0 <= i < |ids| ==> ids[i] in from.rules || ids[i] in to.rules
    requires NormalRules(from.rules) && NormalRules(to.rules)
    requires ch in RulesDiff(ids, from.rules, to.rules)
    ensures !Achieved(ch, to, from) && !ch.SetMode? && exists id :: id in ids && Touched(ch) == {id}
  {
    if ids != [] {
      var front, id := ids[..|ids| - 1], ids[|ids| - 1];
      if ch in RulesDiff(front, from.rules, to.rules) {
        RulesDiffNeeded(front, from, to, ch);
      } else {
        RuleDiffNeeded(id, from, to, ch);
        assert id in ids;
      }
    }
  }

  ghost predicate PairwiseIndependent(changes: seq<Change>) {
    forall i, j :: 0 <= i < |changes| && 0 <= j < |changes| && i != j ==> Independent(changes[i], changes[j])
  }

  lemma {:induction false} RulesDiffIndependent(ids: seq<string>, from: Content, to: Content)
    requires forall i :: 0 <= i < |ids| ==> ids[i] in from.rules || ids[i] in to.rules
    requires forall i, j :: 0 <= i < j < |ids| ==> ids[i] != ids[j]
    requires NormalRules(from.rules) && NormalRules(to.rules)
    ensures PairwiseIndependent(RulesDiff(ids, from.rules, to.rules))
  {
    if ids != [] {
      var front, id := ids[..|ids| - 1], ids[|ids| - 1];
      RulesDiffIndependent(front, from, to);
      var a, b := RulesDiff(front, from.rules, to.rules), RuleDiff(id, from.rules, to.rules);
      forall x, y | x in a && y in b ensures Independent(x, y) && Independent(y, x) {
        RulesDiffNeeded(front, from, to, x);
        RuleDiffNeeded(id, from, to, y);
      }
      assert PairwiseIndependent(b);
      IndependentConcat(a, b);
    }
  }

  lemma IndependentConcat(a: seq<Change>, b: seq<Change>)
    requires PairwiseIndependent(a) && PairwiseIndependent(b)
    requires forall x, y :: x in a && y in b ==> Independent(x, y) && Independent(y, x)
    ensures PairwiseIndependent(a + b)
  {
    forall i, j | 0 <= i < |a + b| && 0 <= j < |a + b| && i != j ensures Independent((a + b)[i], (a + b)[j]) {
      if i < |a| && j >= |a| { assert a[i] in a && b[j - |a|] in b; }
      if i >= |a| && j < |a| { assert a[j] in a && b[i - |a|] in b; }
    }
  }

  lemma DiffIndependent(from: Content, to: Content)
    requires NormalRules(from.rules) && NormalRules(to.rules)
    ensures PairwiseIndependent(ContentDiff(from, to))
  {
    hide RulesDiff, AllIds, NormalRules;
    var ids := AllIds(from, to);
    var a, b := ModeDiff(from.mode, to.mode), RulesDiff(ids, from.rules, to.rules);
    RulesDiffIndependent(ids, from, to);
    forall x, y | x in a && y in b ensures Independent(x, y) && Independent(y, x) {
      RulesDiffNeeded(ids, from, to, y);
      assert x.SetMode?;
    }
    IndependentConcat(a, b);
  }

  lemma DiffNeeded(from: Content, to: Content, i: nat)
    requires NormalRules(from.rules) && NormalRules(to.rules)
    requires i < |ContentDiff(from, to)|
    ensures !Achieved(ContentDiff(from, to)[i], to, from)
  {
    var ids := AllIds(from, to);
    var ch := ContentDiff(from, to)[i];
    if i < |ModeDiff(from.mode, to.mode)| {
      assert ch == SetMode(to.mode);
    } else {
      assert ch in RulesDiff(ids, from.rules, to.rules);
      RulesDiffNeeded(ids, from, to, ch);
    }
  }

  lemma {:induction false} ApplyKeepsNormal(c: Content, changes: seq<Change>)
    requires NormalRules(c.rules) && ApplyChanges(c, changes).Ok?
    ensures NormalRules(ApplyChanges(c, changes).value.rules)
  {
    if changes != [] {
      var n := |changes| - 1;
      ApplyKeepsNormal(c, changes[..n]);
      forall t: Text ensures NormalizeCIDR(NormalizeCIDR(t)) == NormalizeCIDR(t) { NormalizeIdempotent(t); }
    }
  }

  /** A difference is irredundant: leave out any of its changes, and what is
      left does not take p to q. */
  lemma DiffIrredundant(p: Policy, q: Policy, keep: seq<bool>, i: nat)
    requires |keep| == |Diff(p, q)| && i < |keep| && !keep[i]
    ensures Apply(p, Delta(p.version, q.version, Select(Diff(p, q), keep))) != Ok(Canonical(q))
  {
    var from, to := ContentOf(p), ContentOf(q);
    IndexNormal(p.rules);
    IndexNormal(q.rules);
    DiffNeeded(from, to, i);
    DiffIndependent(from, to);
    var part := Select(Diff(p, q), keep);
    if ApplyChanges(from, part).Ok? {
      var x := ApplyChanges(from, part).value;
      SelectLeavesUndone(from, to, Diff(p, q), keep, Diff(p, q)[i], x);
      TargetAchieves(from, to, i);
      ApplyKeepsNormal(from, part);
      ExpressSays(q.version, x);
      CanonicalSays(q);
    }
  }

  lemma TargetAchieves(from: Content, to: Content, i: nat)
    requires NormalRules(from.rules) && NormalRules(to.rules)
    requires i < |ContentDiff(from, to)|
    ensures Achieved(ContentDiff(from, to)[i], to, to)
  {
    var ids := AllIds(from, to);
    var ch := ContentDiff(from, to)[i];
    if !ch.SetMode? {
      assert ch in RulesDiff(ids, from.rules, to.rules);
      RulesDiffTarget(ids, from, to, ch);
    }
  }

  lemma {:induction false} RulesDiffTarget(ids: seq<string>, from: Content, to: Content, ch: Change)
    requires forall i :: 0 <= i < |ids| ==> ids[i] in from.rules || ids[i] in to.rules
    requires NormalRules(from.rules) && NormalRules(to.rules)
    requires ch in RulesDiff(ids, from.rules, to.rules)
    ensures Achieved(ch, to, to)
  {
    if ids != [] {
      var front, id := ids[..|ids| - 1], ids[|ids| - 1];
      if ch in RulesDiff(front, from.rules, to.rules) {
        RulesDiffTarget(front, from, to, ch);
      } else if ch.AddPeers? {
        NormalListing(to.rules[id].peers - from.rules[id].peers);
      } else if ch.RemovePeers? {
        NormalListing(from.rules[id].peers - to.rules[id].peers);
      }
    }
  }

  // ----- Application, change by change -----

  /** Whatever is applied to whatever base, the result is canonical, at the
      delta's version. */
  lemma ApplyYieldsCanonical(base: Policy, delta: Delta)
    requires Apply(base, delta).Ok?
    ensures IsCanonical(Apply(base, delta).value) && Apply(base, delta).value.version == delta.to
  {
    hide ApplyChanges;
    IndexNormal(base.rules);
    ApplyKeepsNormal(ContentOf(base), delta.changes);
    ExpressSays(delta.to, ApplyChanges(ContentOf(base), delta.changes).value);
  }

  /** Which changes fail, and as what: a peer change of a rule that is not there
      and a change with no variant, each naming its place. Removing a rule that
      is not there does nothing. */
  lemma ApplyFailsIff(c: Content, changes: seq<Change>, i: nat)
    requires i < |changes| && ApplyChanges(c, changes[..i]).Ok?
    ensures var d, ch := ApplyChanges(c, changes[..i]).value, changes[i];
            var r := ApplyChanges(c, changes[..i + 1]);
            && (r.Err? <==> ch.Unset? || ((ch.AddPeers? || ch.RemovePeers?) && ch.id !in d.rules))
            && (r.Err? ==> r.error == if ch.Unset? then MalformedChange(i) else UnknownRule(i))
            && (ch.RemoveRule? && ch.id !in d.rules ==> r == Ok(d))
  {
    hide GrantOf, NormalSet;
    assert changes[..i + 1][..i] == changes[..i];
    var d := ApplyChanges(c, changes[..i]).value;
    if changes[i].RemoveRule? && changes[i].id !in d.rules {
      assert d.rules - {changes[i].id} == d.rules;
    }
  }

  /** A peer change adds or removes the texts it names, by what they normalize
      to, and touches no other rule. */
  lemma PeerChangeSays(c: Content, ch: Change, at: nat)
    requires (ch.AddPeers? || ch.RemovePeers?) && ch.id in c.rules
    ensures ApplyChange(c, ch, at).Ok?
    ensures var d := ApplyChange(c, ch, at).value;
            && d.mode == c.mode && d.rules.Keys == c.rules.Keys
            && (forall id :: id in c.rules && id != ch.id ==> d.rules[id] == c.rules[id])
            && d.rules[ch.id].protocol == c.rules[ch.id].protocol && d.rules[ch.id].ports == c.rules[ch.id].ports
            && (forall t :: t in d.rules[ch.id].peers <==>
                  if ch.AddPeers? then t in c.rules[ch.id].peers || NamedIn(ch.peers, t)
                  else t in c.rules[ch.id].peers && !NamedIn(ch.peers, t))
  {
    NormalSetSays(ch.peers);
    hide NormalSet;
    var d := ApplyChange(c, ch, at).value;
    assert d.rules.Keys == c.rules.Keys;
  }

  // ----- Order -----

  /** The rule a change is about. */
  function About(ch: Change): string {
    match ch
    case UpsertRule(r) => r.id
    case RemoveRule(id) => id
    case AddPeers(id, _) => id
    case RemovePeers(id, _) => id
    case _ => ""
  }

  /** Rule changes by rule id. */
  ghost predicate ById(d: seq<Change>) {
    && (forall i :: 0 <= i < |d| ==> !d[i].SetMode?)
    && (forall i, j :: 0 <= i < j < |d| ==> About(d[i]) == About(d[j]) || StringLess(About(d[i]), About(d[j])))
  }

  lemma ByIdConcat(a: seq<Change>, b: seq<Change>, id: string)
    requires ById(a) && (forall ch :: ch in a ==> StringLess(About(ch), id))
    requires forall ch :: ch in b ==> !ch.SetMode? && About(ch) == id
    ensures ById(a + b)
  {
    hide StringLess, About;
    var d := a + b;
    forall i | 0 <= i < |d| ensures !d[i].SetMode? { assert i < |a| || d[i] in b; }
    forall i, j | 0 <= i < j < |d| ensures About(d[i]) == About(d[j]) || StringLess(About(d[i]), About(d[j])) {
      assert i >= |a| ==> d[i] in b;
      assert j >= |a| ==> d[j] in b;
      assert i < |a| ==> d[i] in a;
    }
  }

  lemma {:induction false} RulesDiffOrdered(ids: seq<string>, from: map<string, Grant>, to: map<string, Grant>)
    requires (forall i :: 0 <= i < |ids| ==> ids[i] in from || ids[i] in to) && Ascending(ids, StringLess)
    ensures ById(RulesDiff(ids, from, to))
    ensures forall ch :: ch in RulesDiff(ids, from, to) ==> About(ch) in ids
  {
    hide StringLess, ById, About;
    if ids == [] {
      ByIdNone();
    } else {
      var n := |ids| - 1;
      RulesDiffOrdered(ids[..n], from, to);
      RuleDiffAbout(ids[n], from, to);
      var a, b := RulesDiff(ids[..n], from, to), RuleDiff(ids[n], from, to);
      assert forall x :: x in ids[..n] ==> StringLess(x, ids[n]);
      ByIdConcat(a, b, ids[n]);
      forall ch | ch in a + b ensures About(ch) in ids {
        if ch in a { assert About(ch) in ids[..n]; } else { assert ids[n] in ids; }
      }
    }
  }

  lemma ByIdNone()
    ensures ById([])
  {
  }

  lemma RuleDiffAbout(id: string, from: map<string, Grant>, to: map<string, Grant>)
    requires id in from || id in to
    ensures forall ch :: ch in RuleDiff(id, from, to) ==> !ch.SetMode? && About(ch) == id
  {
  }

  /** A mode change comes first, if there is one, and the rule changes follow by
      rule id. */
  lemma DiffOrdered(p: Policy, q: Policy)
    ensures if p.mode == q.mode then ById(Diff(p, q))
            else Diff(p, q) != [] && Diff(p, q)[0] == SetMode(q.mode) && ById(Diff(p, q)[1..])
  {
    hide RulesDiff, StringLess, About, ById;
    var from, to := ContentOf(p), ContentOf(q);
    ListedIds(from.rules.Keys + to.rules.Keys);
    var rules := RulesDiff(AllIds(from, to), from.rules, to.rules);
    RulesDiffOrdered(AllIds(from, to), from.rules, to.rules);
    assert [] + rules == rules && ([SetMode(q.mode)] + rules)[1..] == rules;
  }
}
