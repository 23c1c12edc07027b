/** Editing rulesets: read, edit, carry provenance, and write on condition of
    the version read. */
module Authoring {
  import opened Wrappers

  type Selector = map<string, seq<string>>

  /** A peer as it is stored; kind says which of the others is meant. */
  datatype Peer = Peer(kind: int, workloads: Selector, group: string, cidr: string)

  datatype Entry = Entry(protocol: int, ports: seq<(int, int)>)

  /** What a rule says. */
  datatype Body = Body(
    direction: int, enabled: bool, description: string,
    peers: seq<Peer>, serviceIds: seq<string>, entries: seq<Entry>)

  datatype Rule = Rule(id: string, body: Body, createdAt: int, updatedAt: int, version: nat)

  datatype Meta = Meta(name: string, description: string, enabled: bool, scope: Selector)

  datatype Ruleset = Ruleset(meta: Meta, rules: seq<Rule>, createdAt: int, updatedAt: int, version: nat)

  // ----- When two rules say the same -----

  function ValuesAt(s: Selector, key: string): seq<string> {
    if key in s then s[key] else []
  }

  /** Equality of peers as the program decides it: a key the second selector
      lacks reads as no values. */
  predicate PeerEqual(a: Peer, b: Peer) {
    && a.kind == b.kind && a.group == b.group && a.cidr == b.cidr && |a.workloads| == |b.workloads|
    && forall key :: key in a.workloads ==> a.workloads[key] == ValuesAt(b.workloads, key)
  }

  predicate BodyEqual(a: Body, b: Body) {
    && a.direction == b.direction && a.enabled == b.enabled && a.description == b.description
    && |a.peers| == |b.peers| && (forall i :: 0 <= i < |a.peers| ==> PeerEqual(a.peers[i], b.peers[i]))
    && a.serviceIds == b.serviceIds && a.entries == b.entries
  }

  method PeersEqual(a: Peer, b: Peer) returns (r: bool)
    ensures r <==> PeerEqual(a, b)
  {
    if a.kind != b.kind || a.group != b.group || a.cidr != b.cidr || |a.workloads| != |b.workloads| {
      return false;
    }
    var todo := a.workloads.Keys;
    while todo != {}
      invariant todo <= a.workloads.Keys
      invariant forall key :: key in a.workloads && key !in todo ==> a.workloads[key] == ValuesAt(b.workloads, key)
    {
      var key :| key in todo;
      if a.workloads[key] != ValuesAt(b.workloads, key) {
        return false;
      }
      todo := todo - {key};
    }
    return true;
  }

  method RuleEqual(a: Rule, b: Rule) returns (r: bool)
    ensures r <==> BodyEqual(a.body, b.body)
  {
    hide PeerEqual;
    var x, y := a.body, b.body;
    if x.direction != y.direction || x.enabled != y.enabled || x.description != y.description {
      return false;
    }
    if |x.peers| != |y.peers| {
      return false;
    }
    for i := 0 to |x.peers|
      invariant forall j :: 0 <= j < i ==> PeerEqual(x.peers[j], y.peers[j])
    {
      var same := PeersEqual(x.peers[i], y.peers[i]);
      if !same {
        return false;
      }
    }
    return x.serviceIds == y.serviceIds && x.entries == y.entries;
  }

  /** Every key of a selector lists some value. */
  predicate Listed(s: Selector) {
    forall key :: key in s ==> s[key] != []
  }

  lemma {:induction false} SameKeys<T>(a: set<T>, b: set<T>)
    requires a <= b && |a| == |b|
    ensures a == b
  {
    if a != {} {
      var x :| x in a;
      SameKeys(a - {x}, b - {x});
    }
  }

  lemma PeerEqualExact(a: Peer, b: Peer)
    requires Listed(a.workloads)
    ensures PeerEqual(a, b) <==> a == b
  {
    if PeerEqual(a, b) {
      assert |a.workloads.Keys| == |b.workloads.Keys|;
      assert a.workloads.Keys <= b.workloads.Keys;
      SameKeys(a.workloads.Keys, b.workloads.Keys);
      assert a.workloads == b.workloads;
    }
  }

  predicate ListedBody(a: Body) {
    forall i :: 0 <= i < |a.peers| ==> Listed(a.peers[i].workloads)
  }

  /** Rules whose selectors all list values are equal exactly when they say
      the same thing. */
  lemma BodyEqualExact(a: Body, b: Body)
    requires ListedBody(a)
    ensures BodyEqual(a, b) <==> a == b
  {
    hide PeerEqual, Listed;
    forall i | 0 <= i < |a.peers| && i < |b.peers|
        ensures PeerEqual(a.peers[i], b.peers[i]) <==> a.peers[i] == b.peers[i] {
      PeerEqualExact(a.peers[i], b.peers[i]);
    }
    if BodyEqual(a, b) {
      assert a.peers == b.peers;
    }
  }

  /** A key that lists nothing passes for any key the selector lacks. */
  lemma ValuelessKeyPasses(p: Peer, x: string, y: string)
    requires x in p.workloads && p.workloads[x] == [] && y !in p.workloads
    ensures var b := p.(workloads := (p.workloads - {x})[y := []]);
            PeerEqual(p, b) && p != b
  {
    var b := p.(workloads := (p.workloads - {x})[y := []]);
    assert x !in b.workloads;
    assert b.workloads.Keys == p.workloads.Keys - {x} + {y};
    assert |b.workloads.Keys| == |b.workloads| && |p.workloads.Keys| == |p.workloads|;
  }

  lemma {:induction false} LongerThanAll(s: set<string>) returns (n: nat)
    ensures forall x :: x in s ==> |x| < n
  {
    if s == {} {
      n := 0;
    } else {
      var x :| x in s;
      var m := LongerThanAll(s - {x});
      n := if m > |x| then m else |x| + 1;
      assert forall y :: y in s ==> y == x || y in s - {x};
    }
  }

  /** The program's comparison of a rule is exact, against every other, exactly
      when every key of its selectors lists some value. */
  lemma BodyEqualExactIff(a: Body)
    ensures (forall b :: BodyEqual(a, b) ==> a == b) <==> ListedBody(a)
  {
    hide BodyEqual;
    if ListedBody(a) {
      forall b | BodyEqual(a, b) ensures a == b { BodyEqualExact(a, b); }
    } else {
      var i :| 0 <= i < |a.peers| && !Listed(a.peers[i].workloads);
      var p := a.peers[i];
      var x :| x in p.workloads && p.workloads[x] == [];
      var n := LongerThanAll(p.workloads.Keys);
      var y := seq(n, _ => 'y');
      ValuelessKeyPasses(p, x, y);
      var q := p.(workloads := (p.workloads - {x})[y := []]);
      var b := a.(peers := a.peers[i := q]);
      OnePeerChanged(a, i, q);
      assert BodyEqual(a, b) && b.peers[i] == q != a.peers[i];
    }
  }

  lemma OnePeerChanged(a: Body, i: nat, q: Peer)
    requires i < |a.peers| && PeerEqual(a.peers[i], q)
    ensures BodyEqual(a, a.(peers := a.peers[i := q]))
  {
    forall j | 0 <= j < |a.peers| ensures PeerEqual(a.peers[j], a.peers[i := q][j]) {
      if j != i { PeerEqualSelf(a.peers[j]); }
    }
  }

  lemma PeerEqualSelf(p: Peer)
    ensures PeerEqual(p, p)
  {
  }

  // ----- Provenance -----

  predicate DistinctIds(rules: seq<Rule>) {
    forall i, j :: 0 <= i < j < |rules| ==> rules[i].id != rules[j].id
  }

  /** The rule of an id that a map filled in order ends up with: the last. */
  function Find(rules: seq<Rule>, id: string): (r: Option<Rule>)
    ensures r.Some? ==> r.value in rules && r.value.id == id
    ensures r.None? ==> forall x :: x in rules ==> x.id != id
  {
    if rules == [] then None
    else
      var n := |rules| - 1;
      assert rules == rules[..n] + [rules[n]];
      if rules[n].id == id then Some(rules[n]) else Find(rules[..n], id)
  }

  /** What admission lets through: distinct ids, and a value for every key of
      every selector. */
  predicate Admissible(rules: seq<Rule>) {
    DistinctIds(rules) && forall i :: 0 <= i < |rules| ==> ListedBody(rules[i].body)
  }

  /** The instants and version a rule gets from what it replaces. */
  function Carry(before: Option<Rule>, r: Rule, now: int): Rule {
    if before.None? then r.(createdAt := now, updatedAt := now, version := 1)
    else
      var old_ := before.value;
      if BodyEqual(old_.body, r.body)
      then r.(createdAt := old_.createdAt, updatedAt := old_.updatedAt, version := old_.version)
      else r.(createdAt := old_.createdAt, updatedAt := now, version := old_.version + 1)
  }

  function Carried(prev: seq<Rule>, next: seq<Rule>, now: int): (r: seq<Rule>)
    ensures |r| == |next|
    ensures forall i :: 0 <= i < |next| ==> r[i] == Carry(Find(prev, next[i].id), next[i], now)
  {
    seq(|next|, i requires 0 <= i < |next| => Carry(Find(prev, next[i].id), next[i], now))
  }

  method IndexRules(rules: seq<Rule>) returns (m: map<string, Rule>)
    ensures forall id :: (id in m <==> Find(rules, id).Some?) && (id in m ==> m[id] == Find(rules, id).value)
  {
    m := map[];
    for i := 0 to |rules|
      invariant forall id ::
          (id in m <==> Find(rules[..i], id).Some?) && (id in m ==> m[id] == Find(rules[..i], id).value)
    {
      assert rules[..i + 1][..i] == rules[..i];
      m := m[rules[i].id := rules[i]];
    }
    assert rules[..|rules|] == rules;
  }

  /** Gives every rule of next, in place, its instants and version. */
  method CarryRuleProvenance(prev: seq<Rule>, next: array<Rule>, now: int)
    modifies next
    ensures next[..] == Carried(prev, old(next[..]), now)
  {
    hide Find, BodyEqual;
    var before := IndexRules(prev);
    for i := 0 to next.Length
      invariant forall j :: 0 <= j < i ==> next[j] == Carry(Find(prev, old(next[j]).id), old(next[j]), now)
      invariant forall j :: i <= j < next.Length ==> next[j] == old(next[j])
    {
      var r := next[i];
      if r.id !in before {
        next[i] := r.(createdAt := now, updatedAt := now, version := 1);
      } else {
        var was := before[r.id];
        var same := RuleEqual(was, r);
        r := r.(createdAt := was.createdAt);
        next[i] := if same then r.(updatedAt := was.updatedAt, version := was.version)
          else r.(updatedAt := now, version := was.version + 1);
      }
    }
  }

  // ----- Edits -----

  datatype Edit =
    | CreateRule(rule: Rule)
    | UpdateRule(rule: Rule, expected: Option<nat>)
    | DeleteRule(id: string, expected: Option<nat>)
    | Replace(meta: Meta, rules: seq<Rule>, expected: Option<nat>)

  /** What an edit makes of a ruleset's contents. */
  datatype Wanted = Wanted(meta: Meta, rules: seq<Rule>)

  /** The first rule with an id: one past its index, or 0. */
  function IndexOf(rules: seq<Rule>, id: string): (n: nat)
    ensures n <= |rules| && (n > 0 ==> rules[n - 1].id == id && forall i :: 0 <= i < n - 1 ==> rules[i].id != id)
    ensures n == 0 ==> forall i :: 0 <= i < |rules| ==> rules[i].id != id
  {
    if rules == [] then 0
    else if rules[0].id == id then 1
    else
      var n := IndexOf(rules[1..], id);
      if n == 0 then 0 else n + 1
  }

  predicate Stale(expected: Option<nat>, version: nat) {
    expected.Some? && expected.value != version
  }

  /** An edit of a ruleset as it was read; none when the rule is not there or
      has moved. */
  function Want(rs: Ruleset, edit: Edit): Option<Wanted> {
    match edit
    case CreateRule(rule) => Some(Wanted(rs.meta, rs.rules + [rule]))
    case UpdateRule(rule, expected) =>
      var n := IndexOf(rs.rules, rule.id);
      if n == 0 || Stale(expected, rs.rules[n - 1].version) then None
      else Some(Wanted(rs.meta, rs.rules[n - 1 := rule]))
    case DeleteRule(id, expected) =>
      var n := IndexOf(rs.rules, id);
      if n == 0 || Stale(expected, rs.rules[n - 1].version) then None
      else Some(Wanted(rs.meta, rs.rules[..n - 1] + rs.rules[n..]))
    case Replace(meta, rules, _) => Some(Wanted(meta, rules))
  }

  /** The version a write is conditioned on: a rule's edit on that read, a
      replacement on what its caller read, if it says. */
  function Condition(edit: Edit, rs: Ruleset): Option<nat> {
    if edit.Replace? then edit.expected else Some(rs.version)
  }

  function Written(rs: Ruleset, meta: Meta, rules: seq<Rule>, now: int): Ruleset {
    Ruleset(meta, rules, rs.createdAt, now, rs.version + 1)
  }

  /** The edit, if admitted, applied in one step to a ruleset. */
  function Sequential(rs: Ruleset, edit: Edit, now: int): Option<Ruleset> {
    var w := Want(rs, edit);
    if w.None? || !Admissible(w.value.rules) then None
    else Some(Written(rs, w.value.meta, Carried(rs.rules, w.value.rules, now), now))
  }

  // ----- Concurrent editors -----

  /** An editor between its reads and its write: after the first it has its
      contents, after the second, of the version from, their provenance. */
  datatype Editor =
    | Editing(edit: Edit, wanted: Wanted, expected: Option<nat>)
    | Ready(edit: Edit, wanted: Wanted, expected: Option<nat>, from: nat, now: int, rules: seq<Rule>)

  datatype Commit = Commit(edit: Edit, from: nat, now: int)

  /** Every version of the ruleset there has been, the last one stored, the
      writes that made them, and the editors at work. */
  datatype System = System(past: seq<Ruleset>, log: seq<Commit>, editors: map<nat, Editor>)

  function Stored(s: System): Ruleset
    requires s.past != []
  {
    s.past[|s.past| - 1]
  }

  datatype Step =
    | Begin(editor: nat, edit: Edit)
    | Reread(editor: nat, now: int)
    | Write(editor: nat)
    | Abandon(editor: nat)

  /** A caller conditions a replacement on a version it has read. */
  predicate Enabled(s: System, step: Step) {
    && s.past != []
    && match step
       case Begin(_, edit) => edit.Replace? && edit.expected.Some? ==> edit.expected.value <= Stored(s).version
       case Reread(c, _) => c in s.editors && s.editors[c].Editing?
       case Write(c) => c in s.editors && s.editors[c].Ready?
       case Abandon(_) => true
  }

  predicate Admitted(rs: Ruleset, e: Editor)
    requires e.Ready?
  {
    (e.expected.None? || e.expected.value == rs.version) && DistinctIds(e.rules)
  }

  function Next(s: System, step: Step): System
    requires Enabled(s, step)
  {
    var rs := Stored(s);
    match step
    case Begin(c, edit) =>
      var w := Want(rs, edit);
      if w.None? || !Admissible(w.value.rules) then s.(editors := s.editors - {c})
      else s.(editors := s.editors[c := Editing(edit, w.value, Condition(edit, rs))])
    case Reread(c, now) =>
      var e := s.editors[c];
      s.(editors := s.editors[c := Ready(e.edit, e.wanted, e.expected, rs.version, now,
        Carried(rs.rules, e.wanted.rules, now))])
    case Write(c) =>
      var e := s.editors[c];
      if Admitted(rs, e)
      then System(s.past + [Written(rs, e.wanted.meta, e.rules, e.now)],
                  s.log + [Commit(e.edit, e.from, e.now)], s.editors - {c})
      else s.(editors := s.editors - {c})
    case Abandon(c) => s.(editors := s.editors - {c})
  }

  ghost predicate Trace(states: seq<System>, steps: seq<Step>) {
    && |states| == |steps| + 1
    && (exists rs :: states[0] == System([rs], [], map[]) && Admissible(rs.rules))
    && forall k :: 0 <= k < |steps| ==> Enabled(states[k], steps[k]) && states[k + 1] == Next(states[k], steps[k])
  }

  // ----- What every step keeps -----

  predicate InPast(past: seq<Ruleset>, version: nat) {
    past != [] && past[0].version <= version < past[0].version + |past|
  }

  function At(past: seq<Ruleset>, version: nat): Ruleset
    requires InPast(past, version)
  {
    past[version - past[0].version]
  }

  /** Versions count up by one, and every version was admitted. */
  ghost predicate Numbered(past: seq<Ruleset>) {
    && past != []
    && (forall i :: 0 <= i < |past| ==> past[i].version == past[0].version + i)
    && (forall i :: 0 <= i < |past| ==> Admissible(past[i].rules))
  }

  /** An editor's contents are its edit of a version that was stored, the one
      its write is conditioned on if it is. */
  predicate Drafted(past: seq<Ruleset>, edit: Edit, wanted: Wanted, expected: Option<nat>) {
    if edit.Replace? then wanted == Wanted(edit.meta, edit.rules) && expected == edit.expected
    else expected.Some? && InPast(past, expected.value) && Want(At(past, expected.value), edit) == Some(wanted)
  }

  ghost predicate EditorSound(past: seq<Ruleset>, e: Editor) {
    && past != [] && Admissible(e.wanted.rules)
    && Drafted(past, e.edit, e.wanted, e.expected)
    && (e.expected.Some? ==> e.expected.value < past[0].version + |past|)
    && (e.Ready? ==>
      && InPast(past, e.from) && (e.expected.Some? ==> e.expected.value <= e.from)
      && e.rules == Carried(At(past, e.from).rules, e.wanted.rules, e.now))
  }

  predicate Conditional(edit: Edit) {
    edit.Replace? ==> edit.expected.Some?
  }

  /** How a write made one version from the one before. */
  ghost predicate Made(past: seq<Ruleset>, before: Ruleset, c: Commit, after: Ruleset) {
    && InPast(past, c.from)
    && (Conditional(c.edit) ==> c.from == before.version)
    && (exists w ::
      Want(before, c.edit) == Some(w) && Admissible(w.rules)
        && after == Written(before, w.meta, Carried(At(past, c.from).rules, w.rules, c.now), c.now))
  }

  ghost predicate Sound(s: System) {
    && Numbered(s.past) && |s.past| == |s.log| + 1
    && (forall c :: c in s.editors ==> EditorSound(s.past, s.editors[c]))
    && (forall i :: 0 <= i < |s.log| ==> Made(s.past, s.past[i], s.log[i], s.past[i + 1]))
  }

  lemma AtExtends(past: seq<Ruleset>, rs: Ruleset, version: nat)
    requires InPast(past, version)
    ensures InPast(past + [rs], version) && At(past + [rs], version) == At(past, version)
  {
  }

  lemma EditorExtends(past: seq<Ruleset>, rs: Ruleset, e: Editor)
    requires EditorSound(past, e)
    ensures EditorSound(past + [rs], e)
  {
    hide Want, Carried;
    if !e.edit.Replace? { AtExtends(past, rs, e.expected.value); }
    if e.Ready? { AtExtends(past, rs, e.from); }
  }

  lemma MadeExtends(past: seq<Ruleset>, rs: Ruleset, before: Ruleset, c: Commit, after: Ruleset)
    requires Made(past, before, c, after)
    ensures Made(past + [rs], before, c, after)
  {
    hide Want, Carried, Written;
    AtExtends(past, rs, c.from);
  }

  lemma BeginSound(s: System, c: nat, edit: Edit)
    requires Sound(s) && Enabled(s, Begin(c, edit))
    ensures Sound(Next(s, Begin(c, edit)))
  {
    hide Want, Carried, Made;
    var rs := Stored(s);
    WantReplace(rs, edit);
    var w := Want(rs, edit);
    if w.Some? && Admissible(w.value.rules) {
      var e := Editing(edit, w.value, Condition(edit, rs));
      assert At(s.past, rs.version) == rs;
      assert EditorSound(s.past, e);
    }
  }

  lemma WantReplace(rs: Ruleset, edit: Edit)
    ensures edit.Replace? ==> Want(rs, edit) == Some(Wanted(edit.meta, edit.rules))
  {
  }

  lemma RereadSound(s: System, c: nat, now: int)
    requires Sound(s) && Enabled(s, Reread(c, now))
    ensures Sound(Next(s, Reread(c, now)))
  {
    hide Want, Carried, Made, Drafted;
    var rs, e := Stored(s), s.editors[c];
    assert At(s.past, rs.version) == rs;
    assert EditorSound(s.past, e);
  }

  /** A write that is admitted on condition finds stored the version its
      provenance was read from. */
  lemma WriteMade(s: System, c: nat)
    requires Sound(s) && Enabled(s, Write(c)) && Admitted(Stored(s), s.editors[c])
    ensures var rs, e := Stored(s), s.editors[c];
            Made(s.past, rs, Commit(e.edit, e.from, e.now), Written(rs, e.wanted.meta, e.rules, e.now))
  {
    hide Want, Carried;
    var rs, e := Stored(s), s.editors[c];
    assert EditorSound(s.past, e);
    WantReplace(rs, e.edit);
    if Conditional(e.edit) {
      assert e.expected == Some(rs.version) && e.from == rs.version;
      assert At(s.past, rs.version) == rs;
    }
    assert Want(rs, e.edit) == Some(e.wanted);
  }

  lemma WriteSound(s: System, c: nat)
    requires Sound(s) && Enabled(s, Write(c))
    ensures Sound(Next(s, Write(c)))
  {
    hide EditorSound, Made, Written;
    var rs, e := Stored(s), s.editors[c];
    if Admitted(rs, e) {
      WriteMade(s, c);
      var after := Written(rs, e.wanted.meta, e.rules, e.now);
      EditorAdmissible(s.past, e);
      WrittenNumbered(s.past, e.wanted.meta, e.rules, e.now);
      var n := Next(s, Write(c));
      forall x | x in n.editors ensures EditorSound(n.past, n.editors[x]) {
        EditorExtends(s.past, after, s.editors[x]);
      }
      forall i | 0 <= i < |n.log| ensures Made(n.past, n.past[i], n.log[i], n.past[i + 1]) {
        MadeExtends(s.past, after, n.past[i], n.log[i], n.past[i + 1]);
      }
    }
  }

  lemma CarriedAdmissible(prev: seq<Rule>, next: seq<Rule>, now: int)
    requires Admissible(next)
    ensures Admissible(Carried(prev, next, now))
  {
    hide ListedBody, BodyEqual;
  }

  lemma EditorAdmissible(past: seq<Ruleset>, e: Editor)
    requires EditorSound(past, e) && e.Ready?
    ensures Admissible(e.rules)
  {
    hide Admissible, Carried, Want;
    CarriedAdmissible(At(past, e.from).rules, e.wanted.rules, e.now);
  }

  lemma WrittenNumbered(past: seq<Ruleset>, meta: Meta, rules: seq<Rule>, now: int)
    requires Numbered(past) && Admissible(rules)
    ensures Numbered(past + [Written(past[|past| - 1], meta, rules, now)])
  {
  }

  lemma StepSound(s: System, step: Step)
    requires Sound(s) && Enabled(s, step)
    ensures Sound(Next(s, step))
  {
    match step
    case Begin(c, edit) => BeginSound(s, c, edit);
    case Reread(c, now) => RereadSound(s, c, now);
    case Write(c) => WriteSound(s, c);
    case Abandon(c) => hide EditorSound, Made, Numbered;
  }

  lemma {:induction false} AlwaysSound(states: seq<System>, steps: seq<Step>, k: nat)
    requires Trace(states, steps) && k < |states|
    ensures Sound(states[k])
  {
    if k > 0 {
      hide Sound, Next, Enabled;
      AlwaysSound(states, steps, k - 1);
      StepSound(states[k - 1], steps[k - 1]);
    }
  }

  // ----- Linearization -----

  /** A ruleset says what was wanted, rule for rule. */
  predicate Says(rs: Ruleset, w: Wanted) {
    && rs.meta == w.meta && |rs.rules| == |w.rules|
    && forall j :: 0 <= j < |w.rules| ==> rs.rules[j].id == w.rules[j].id && rs.rules[j].body == w.rules[j].body
  }

  /** Concurrent edits linearize: in every run, each version is the previous
      one with one edit applied to it as a single step, and its number is one
      more. What the edit says is always applied to the version it replaced;
      provenance comes from that version for every edit written on condition,
      and for any other that read no older one. */
  lemma EditsLinearize(states: seq<System>, steps: seq<Step>, k: nat, i: nat)
    requires Trace(states, steps) && k < |states| && i < |states[k].log|
    ensures var s := states[k];
            && |s.past| == |s.log| + 1
            && s.past[i + 1].version == s.past[i].version + 1
            && (Conditional(s.log[i].edit) ==> s.log[i].from == s.past[i].version)
            && (s.log[i].from == s.past[i].version ==>
                Sequential(s.past[i], s.log[i].edit, s.log[i].now) == Some(s.past[i + 1]))
            && exists w :: Want(s.past[i], s.log[i].edit) == Some(w) && Says(s.past[i + 1], w)
  {
    AlwaysSound(states, steps, k);
    hide Trace, EditorSound, Want, Carried;
    var s := states[k];
    assert Made(s.past, s.past[i], s.log[i], s.past[i + 1]);
    var w :| Want(s.past[i], s.log[i].edit) == Some(w)
             && s.past[i + 1] == Written(s.past[i], w.meta,
               Carried(At(s.past, s.log[i].from).rules, w.rules, s.log[i].now), s.log[i].now);
    assert Says(s.past[i + 1], w);
    if s.log[i].from == s.past[i].version {
      assert At(s.past, s.log[i].from) == s.past[i];
    }
  }

  /** What was once stored stays in the history that every later version is
      built on, and only a write adds to it. */
  lemma {:induction false} HistoryGrows(states: seq<System>, steps: seq<Step>, k: nat, m: nat)
    requires Trace(states, steps) && k <= m < |states|
    ensures states[k].past <= states[m].past && states[k].log <= states[m].log
    decreases m
  {
    if k < m {
      HistoryGrows(states, steps, k, m - 1);
      assert Enabled(states[m - 1], steps[m - 1]) && states[m] == Next(states[m - 1], steps[m - 1]);
    }
  }

  // ----- Provenance over a run -----

  lemma {:induction false} FindDistinct(rules: seq<Rule>, i: nat)
    requires DistinctIds(rules) && i < |rules|
    ensures Find(rules, rules[i].id) == Some(rules[i])
  {
    if i < |rules| - 1 {
      assert rules[..|rules| - 1][i] == rules[i];
      FindDistinct(rules[..|rules| - 1], i);
    }
  }

  /** Across one write on condition, a rule that stays keeps when it was
      created, and its version advances by one exactly when what it says
      changed; a rule that was not there starts at version 1. */
  lemma ProvenanceStep(rs: Ruleset, edit: Edit, now: int, after: Ruleset, id: string)
    requires Admissible(rs.rules) && Sequential(rs, edit, now) == Some(after)
    requires Find(after.rules, id).Some?
    ensures var was, r := Find(rs.rules, id), Find(after.rules, id).value;
            && (was.None? ==> r.version == 1 && r.createdAt == r.updatedAt == now)
            && (was.Some? ==>
                && r.createdAt == was.value.createdAt
                && r.version == was.value.version + (if was.value.body == r.body then 0 else 1)
                && r.updatedAt == (if was.value.body == r.body then was.value.updatedAt else now))
  {
    hide BodyEqual, Find, Want, Admissible;
    var w := Want(rs, edit).value;
    var was, r := Find(rs.rules, id), Find(after.rules, id).value;
    var i :| 0 <= i < |after.rules| && after.rules[i] == r;
    assert r == Carry(Find(rs.rules, w.rules[i].id), w.rules[i], now);
    if was.Some? {
      ListedMember(rs.rules, was.value);
      BodyEqualExact(was.value.body, r.body);
    }
  }

  lemma ListedMember(rules: seq<Rule>, r: Rule)
    requires Admissible(rules) && r in rules
    ensures ListedBody(r.body)
  {
  }

  /** How often what the rule says changed from one version to another. */
  function ChangesOf(past: seq<Ruleset>, id: string, i: nat, j: nat): nat
    requires i <= j < |past| && forall k :: i <= k <= j ==> Find(past[k].rules, id).Some?
    decreases j
  {
    if i == j then 0
    else
      var same := Find(past[j - 1].rules, id).value.body == Find(past[j].rules, id).value.body;
      ChangesOf(past, id, i, j - 1) + (if same then 0 else 1)
  }

  /** A version is the sequential result of its edit on the one before. */
  ghost predicate Follows(past: seq<Ruleset>, log: seq<Commit>, k: nat)
    requires |past| == |log| + 1
  {
    k < |log| && Admissible(past[k].rules) && Sequential(past[k], log[k].edit, log[k].now) == Some(past[k + 1])
  }

  lemma {:induction false} VersionsCount(past: seq<Ruleset>, log: seq<Commit>, id: string, i: nat, j: nat)
    requires |past| == |log| + 1 && i <= j < |past|
    requires forall k :: i <= k <= j ==> Find(past[k].rules, id).Some?
    requires forall k :: i <= k < j ==> Follows(past, log, k)
    ensures Find(past[j].rules, id).value.version == Find(past[i].rules, id).value.version + ChangesOf(past, id, i, j)
    ensures Find(past[j].rules, id).value.createdAt == Find(past[i].rules, id).value.createdAt
    decreases j
  {
    hide Find, Sequential, Admissible;
    if i < j {
      VersionsCount(past, log, id, i, j - 1);
      var k := j - 1;
      assert Follows(past, log, k);
      ProvenanceStep(past[k], log[k].edit, log[k].now, past[j], id);
    }
  }

  lemma FollowsAlways(states: seq<System>, steps: seq<Step>, m: nat, k: nat)
    requires Trace(states, steps) && m < |states| && k < |states[m].log| && Conditional(states[m].log[k].edit)
    ensures |states[m].past| == |states[m].log| + 1 && Follows(states[m].past, states[m].log, k)
  {
    AlwaysSound(states, steps, m);
    hide Trace, EditorSound, Sequential, Made;
    EditsLinearize(states, steps, m, k);
  }

  /** While a rule stays in its ruleset, and the writes are on condition, its
      version counts the changes of what it says and its creation stands. */
  lemma VersionCountsChanges(states: seq<System>, steps: seq<Step>, m: nat, id: string, i: nat, j: nat)
    requires Trace(states, steps) && m < |states| && i <= j < |states[m].past|
    requires forall k :: i <= k <= j ==> Find(states[m].past[k].rules, id).Some?
    requires forall k :: i <= k < j && k < |states[m].log| ==> Conditional(states[m].log[k].edit)
    ensures var past := states[m].past;
            && Find(past[j].rules, id).value.version
              == Find(past[i].rules, id).value.version + ChangesOf(past, id, i, j)
            && Find(past[j].rules, id).value.createdAt == Find(past[i].rules, id).value.createdAt
  {
    AlwaysSound(states, steps, m);
    hide Trace, EditorSound, Find, Made, ChangesOf, Follows, Numbered;
    var s := states[m];
    forall k | i <= k < j ensures Follows(s.past, s.log, k) { FollowsAlways(states, steps, m, k); }
    VersionsCount(s.past, s.log, id, i, j);
  }

  // ----- No edit is lost -----

  /** The edit names a rule, or replaces the whole ruleset. */
  predicate Touches(edit: Edit, id: string) {
    match edit
    case CreateRule(rule) => rule.id == id
    case UpdateRule(rule, _) => rule.id == id
    case DeleteRule(x, _) => x == id
    case Replace(_, _, _) => true
  }

  lemma {:induction false} FindCarried(prev: seq<Rule>, next: seq<Rule>, now: int, id: string)
    ensures Find(Carried(prev, next, now), id)
         == if Find(next, id).None? then None else Some(Carry(Find(prev, id), Find(next, id).value, now))
  {
    if next != [] {
      var n := |next| - 1;
      FindCarried(prev, next[..n], now, id);
      assert Carried(prev, next, now)[..n] == Carried(prev, next[..n], now);
    }
  }

  lemma {:induction false} FindAppend(a: seq<Rule>, b: seq<Rule>, id: string)
    ensures Find(a + b, id) == if Find(b, id).Some? then Find(b, id) else Find(a, id)
  {
    if b == [] {
      assert a + b == a;
    } else {
      var n := |b| - 1;
      FindAppend(a, b[..n], id);
      assert (a + b)[..|a| + n] == a + b[..n];
    }
  }

  lemma FindOne(r: Rule, id: string)
    ensures Find([r], id) == if r.id == id then Some(r) else None
  {
    assert [r][..0] == [];
  }

  /** An edit of another rule finds this one where it was. */
  lemma UntouchedWant(rs: Ruleset, edit: Edit, id: string)
    requires !Touches(edit, id) && Want(rs, edit).Some?
    ensures Find(Want(rs, edit).value.rules, id) == Find(rs.rules, id)
  {
    hide Find;
    match edit
    case CreateRule(rule) =>
      FindAppend(rs.rules, [rule], id);
      FindOne(rule, id);
    case UpdateRule(rule, _) =>
      var n := IndexOf(rs.rules, rule.id);
      UntouchedAt(rs.rules, n - 1, [rule], id);
      assert rs.rules[n - 1 := rule] == rs.rules[..n - 1] + [rule] + rs.rules[n..];
      FindOne(rule, id);
    case DeleteRule(x, _) =>
      var n := IndexOf(rs.rules, x);
      UntouchedAt(rs.rules, n - 1, [], id);
      assert rs.rules[..n - 1] + [] + rs.rules[n..] == rs.rules[..n - 1] + rs.rules[n..];
      FindNone(id);
  }

  lemma FindNone(id: string)
    ensures Find([], id) == None
  {
  }

  lemma UntouchedAt(rules: seq<Rule>, i: nat, put: seq<Rule>, id: string)
    requires i < |rules| && rules[i].id != id
    ensures Find(put, id).None? ==> Find(rules[..i] + put + rules[i + 1..], id) == Find(rules, id)
  {
    hide Find;
    var a, b := rules[..i], rules[i + 1..];
    assert rules == a + [rules[i]] + b;
    FindOne(rules[i], id);
    FindAppend(a + [rules[i]], b, id);
    FindAppend(a, [rules[i]], id);
    FindAppend(a + put, b, id);
    FindAppend(a, put, id);
  }

  lemma BodyEqualSelf(a: Body)
    ensures BodyEqual(a, a)
  {
    forall i | 0 <= i < |a.peers| ensures PeerEqual(a.peers[i], a.peers[i]) { PeerEqualSelf(a.peers[i]); }
  }

  lemma UntouchedStep(rs: Ruleset, edit: Edit, now: int, after: Ruleset, id: string)
    requires !Touches(edit, id) && Sequential(rs, edit, now) == Some(after)
    ensures Find(after.rules, id) == Find(rs.rules, id)
  {
    hide Find, Want, Touches, BodyEqual, Admissible;
    var w := Want(rs, edit).value;
    UntouchedWant(rs, edit, id);
    FindCarried(rs.rules, w.rules, now, id);
    if Find(rs.rules, id).Some? { BodyEqualSelf(Find(rs.rules, id).value.body); }
  }

  /** No successful edit is lost: what an edit made of a rule, its presence, what
      it says and its provenance, stands in every later version until another
      successful edit names the rule or replaces the ruleset. */
  lemma {:induction false} EditSurvives(states: seq<System>, steps: seq<Step>, m: nat, id: string, i: nat, j: nat)
    requires Trace(states, steps) && m < |states| && i <= j < |states[m].past|
    requires forall k :: i <= k < j && k < |states[m].log| ==> !Touches(states[m].log[k].edit, id)
    ensures Find(states[m].past[j].rules, id) == Find(states[m].past[i].rules, id)
    decreases j
  {
    AlwaysSound(states, steps, m);
    hide Trace, EditorSound, Find, Made, Numbered, Sequential, Touches;
    if i < j {
      EditSurvives(states, steps, m, id, i, j - 1);
      var s, k := states[m], j - 1;
      UntouchedConditional(s.log[k].edit, id);
      FollowsAlways(states, steps, m, k);
      UntouchedStep(s.past[k], s.log[k].edit, s.log[k].now, s.past[j], id);
    }
  }

  lemma UntouchedConditional(edit: Edit, id: string)
    requires !Touches(edit, id)
    ensures Conditional(edit)
  {
  }

  // ----- Writes without a condition -----

  /** What the rule says at the two ends of a stretch it changed in at most
      once: the same after no change, another thing after one. */
  lemma {:induction false} FewChanges(past: seq<Ruleset>, id: string, i: nat, j: nat)
    requires i <= j < |past| && forall k :: i <= k <= j ==> Find(past[k].rules, id).Some?
    ensures ChangesOf(past, id, i, j) == 0 ==> Find(past[i].rules, id).value.body == Find(past[j].rules, id).value.body
    ensures ChangesOf(past, id, i, j) == 1 ==> Find(past[i].rules, id).value.body != Find(past[j].rules, id).value.body
    decreases j
  {
    hide Find;
    if i < j { FewChanges(past, id, i, j - 1); }
  }

  /** What any write, on condition or not, makes of a rule: its provenance is
      carried from the version the editor read. */
  lemma WrittenRule(states: seq<System>, steps: seq<Step>, m: nat, i: nat, f: nat, id: string)
    requires Trace(states, steps) && m < |states| && i < |states[m].log| && f < |states[m].past|
        && i + 1 < |states[m].past|
    requires states[m].log[i].from == states[m].past[f].version && Find(states[m].past[i + 1].rules, id).Some?
    ensures Admissible(states[m].past[f].rules) && f <= i
    ensures var r := Find(states[m].past[i + 1].rules, id).value;
            r == Carry(Find(states[m].past[f].rules, id), r, states[m].log[i].now)
  {
    AlwaysSound(states, steps, m);
    FromBefore(states, steps, m, i);
    hide Trace, EditorSound, Made, Find, Carry;
    var s := states[m];
    MadeRule(s.past, s.past[i], s.log[i], s.past[i + 1], f, id);
  }

  lemma MadeRule(past: seq<Ruleset>, before: Ruleset, c: Commit, after: Ruleset, f: nat, id: string)
    requires Made(past, before, c, after) && Numbered(past) && f < |past| && c.from == past[f].version
    requires Find(after.rules, id).Some?
    ensures Find(after.rules, id).value == Carry(Find(past[f].rules, id), Find(after.rules, id).value, c.now)
  {
    hide Find, Admissible, BodyEqual, Want;
    assert At(past, c.from) == past[f];
    var w :| Want(before, c.edit) == Some(w) && Admissible(w.rules)
             && after == Written(before, w.meta, Carried(At(past, c.from).rules, w.rules, c.now), c.now);
    FindCarried(past[f].rules, w.rules, c.now, id);
  }

  /** The law of versions at one write, on condition or not: it holds exactly
      when the rule had not changed since the version the editor read, or had
      changed once and to what the write says. */
  lemma ProvenanceIff(states: seq<System>, steps: seq<Step>, m: nat, i: nat, f: nat, id: string)
    requires Trace(states, steps) && m < |states| && i < |states[m].log| && i + 1 < |states[m].past|
    requires f <= i && states[m].log[i].from == states[m].past[f].version
    requires forall k :: f <= k <= i + 1 ==> Find(states[m].past[k].rules, id).Some?
    requires forall k :: f <= k < i ==> Conditional(states[m].log[k].edit)
    ensures var past := states[m].past;
            var was, r := Find(past[i].rules, id).value, Find(past[i + 1].rules, id).value;
            var changes := ChangesOf(past, id, f, i);
            && r.createdAt == was.createdAt
            && (r.version == was.version + (if was.body == r.body then 0 else 1)
                <==> changes == 0 || (changes == 1 && was.body == r.body))
  {
    hide Trace, Find, Conditional, ChangesOf, BodyEqual, Admissible;
    var past := states[m].past;
    var first, r := Find(past[f].rules, id).value, Find(past[i + 1].rules, id).value;
    WrittenRule(states, steps, m, i, f, id);
    VersionCountsChanges(states, steps, m, id, f, i);
    FewChanges(past, id, f, i);
    ListedMember(past[f].rules, first);
    BodyEqualExact(first.body, r.body);
  }

  /** And when the rule was not there yet in the version the editor read: the
      write starts it again at version 1, which is the law only for a rule that
      is at version 1 and does not change. */
  lemma ProvenanceOfNewIff(states: seq<System>, steps: seq<Step>, m: nat, i: nat, f: nat, id: string)
    requires Trace(states, steps) && m < |states| && i < |states[m].log| && i + 1 < |states[m].past|
    requires f <= i && states[m].log[i].from == states[m].past[f].version && Find(states[m].past[f].rules, id).None?
    requires Find(states[m].past[i].rules, id).Some? && Find(states[m].past[i + 1].rules, id).Some?
    requires Find(states[m].past[i].rules, id).value.version >= 1
    ensures var was, r := Find(states[m].past[i].rules, id).value, Find(states[m].past[i + 1].rules, id).value;
            r.version == was.version + (if was.body == r.body then 0 else 1) <==> was.version == 1 && was.body == r.body
  {
    hide Trace, Find, BodyEqual, Admissible;
    WrittenRule(states, steps, m, i, f, id);
  }

  /** An editor's provenance is never read from a later version than the one it
      replaces. */
  lemma FromBefore(states: seq<System>, steps: seq<Step>, m: nat, i: nat)
    requires Trace(states, steps) && m < |states| && i < |states[m].log|
    ensures i < |states[m].past| && states[m].log[i].from <= states[m].past[i].version
  {
    AlwaysFromBefore(states, steps, m);
  }

  lemma {:induction false} AlwaysFromBefore(states: seq<System>, steps: seq<Step>, m: nat)
    requires Trace(states, steps) && m < |states|
    ensures |states[m].past| == |states[m].log| + 1
    ensures forall i :: 0 <= i < |states[m].log| ==> states[m].log[i].from <= states[m].past[i].version
  {
    if m > 0 {
      AlwaysFromBefore(states, steps, m - 1);
      AlwaysSound(states, steps, m - 1);
      var s, step := states[m - 1], steps[m - 1];
      assert Enabled(s, step) && states[m] == Next(s, step);
      hide Trace, Want, Carried, Made, Drafted, Admissible;
      if step.Write? {
        assert EditorSound(s.past, s.editors[step.editor]);
      }
    }
  }

  lemma TraceExtends(states: seq<System>, steps: seq<Step>, step: Step)
    requires Trace(states, steps) && Enabled(states[|steps|], step)
    ensures Trace(states + [Next(states[|steps|], step)], steps + [step])
  {
    hide Enabled, Next, Admissible;
    var all, done := states + [Next(states[|steps|], step)], steps + [step];
    forall k | 0 <= k < |done| ensures Enabled(all[k], done[k]) && all[k + 1] == Next(all[k], done[k]) {
      if k < |steps| { assert all[k] == states[k] && all[k + 1] == states[k + 1] && done[k] == steps[k]; }
    }
    assert all[0] == states[0];
  }

  lemma Extended(before: seq<System>, done: seq<Step>, step: Step) returns (states: seq<System>, steps: seq<Step>)
    requires Trace(before, done) && |before| == |done| + 1 && Enabled(before[|done|], step)
    ensures states == before + [Next(before[|done|], step)] && steps == done + [step]
    ensures Trace(states, steps)
  {
    TraceExtends(before, done, step);
    states, steps := before + [Next(before[|done|], step)], done + [step];
  }

  /** The first four steps: both editors have read the first version. */
  lemma BothRead(rs: Ruleset, replace: Edit, update: Edit, b: Rule, c: Rule)
    requires rs.version == 1 && |rs.rules| == 1 && rs.rules[0].id == b.id == c.id
    requires ListedBody(b.body) && ListedBody(c.body)
    requires replace == Replace(rs.meta, [b], None) && update == UpdateRule(c, None)
    ensures var s0 := System([rs], [], map[]);
            Enabled(s0, Begin(1, replace)) && var s1 := Next(s0, Begin(1, replace));
            Enabled(s1, Reread(1, 5)) && var s2 := Next(s1, Reread(1, 5));
            Enabled(s2, Begin(2, update)) && var s3 := Next(s2, Begin(2, update));
            Enabled(s3, Reread(2, 6)) && var s4 := Next(s3, Reread(2, 6));
            && s4.past == [rs] && s4.log == [] && 1 in s4.editors && 2 in s4.editors
            && s4.editors[1] == Ready(replace, Wanted(rs.meta, [b]), None, 1, 5, Carried(rs.rules, [b], 5))
            && s4.editors[2] == Ready(update, Wanted(rs.meta, [c]), Some(1), 1, 6, Carried(rs.rules, [c], 6))
  {
    hide Carried, ListedBody;
    assert IndexOf(rs.rules, c.id) == 1 && rs.rules[0 := c] == [c];
  }

  /** The last two: the update is written and then the replacement. */
  lemma BothWrite(s: System, rs: Ruleset)
    requires s.past == [rs] && rs.version == 1 && 1 in s.editors && 2 in s.editors
    requires s.editors[1].Ready? && s.editors[1].expected == None && |s.editors[1].rules| == 1
    requires s.editors[2].Ready? && s.editors[2].expected == Some(1) && |s.editors[2].rules| == 1
    ensures Enabled(s, Write(2)) && var s5 := Next(s, Write(2));
            Enabled(s5, Write(1)) && var s6 := Next(s5, Write(1));
            && |s6.past| == 3 && s6.past[1].rules == s.editors[2].rules && s6.past[2].rules == s.editors[1].rules
  {
  }

  /** A run in which the law fails: a replacement without a condition reads its
      provenance, another edit of the rule is written, and then the replacement
      is, leaving the rule's version where that edit put it though it says
      something else. */
  lemma UnconditionalReplaceRepeatsVersion(meta: Meta, a: Body, b: Body, c: Body)
    returns (states: seq<System>, steps: seq<Step>)
    requires ListedBody(a) && ListedBody(b) && ListedBody(c) && a != b && a != c && c != b
    ensures Trace(states, steps) && |steps| == 6
    ensures var past := states[6].past;
            && |past| == 3
            && past[1].rules == [Rule("r", c, 0, 6, 2)]
            && past[2].rules == [Rule("r", b, 0, 5, 2)]
  {
    var r := Rule("r", a, 0, 0, 1);
    var rs := Ruleset(meta, [r], 0, 0, 1);
    var replace, update := Replace(meta, [r.(body := b)], None), UpdateRule(r.(body := c), None);
    CarriedOne(r, b, 5);
    CarriedOne(r, c, 6);
    BothRead(rs, replace, update, r.(body := b), r.(body := c));
    states, steps := [System([rs], [], map[])], [];
    assert Trace(states, steps);
    hide Next, Enabled, Trace, Carried, ListedBody;
    states, steps := Extended(states, steps, Begin(1, replace));
    states, steps := Extended(states, steps, Reread(1, 5));
    states, steps := Extended(states, steps, Begin(2, update));
    states, steps := Extended(states, steps, Reread(2, 6));
    BothWrite(states[4], rs);
    states, steps := Extended(states, steps, Write(2));
    states, steps := Extended(states, steps, Write(1));
  }

  lemma CarriedOne(r: Rule, b: Body, now: int)
    requires ListedBody(r.body) && b != r.body
    ensures Carried([r], [r.(body := b)], now) == [r.(body := b, updatedAt := now, version := r.version + 1)]
  {
    hide BodyEqual;
    FindOne(r, r.id);
    BodyEqualExact(r.body, b);
  }

  // ----- What an edit does to the rule it names -----

  predicate SameRule(a: Rule, b: Rule) {
    a.id == b.id && a.body == b.body
  }

  /** The rules of a say, place by place, what those of b say. */
  predicate SameRules(a: seq<Rule>, b: seq<Rule>) {
    |a| == |b| && forall j :: 0 <= j < |a| ==> SameRule(a[j], b[j])
  }

  /** The rule an edit names is at a place, at the version the edit expects. */
  predicate FoundAt(rules: seq<Rule>, id: string, expected: Option<nat>, n: int) {
    0 <= n < |rules| && rules[n].id == id && (expected.Some? ==> rules[n].version == expected.value)
  }

  /** What a version says after an edit, in terms of the one before: a new rule
      is added at the end, an updated one says what the edit says in its place, a
      deleted one is gone, each other rule stays in its order, and a replacement
      is as given. The rule edited was there, at the version expected. */
  ghost predicate Effect(before: Ruleset, edit: Edit, after: Ruleset) {
    match edit
    case CreateRule(rule) => after.meta == before.meta && SameRules(after.rules, before.rules + [rule])
    case UpdateRule(rule, expected) =>
      && after.meta == before.meta
      && exists n :: FoundAt(before.rules, rule.id, expected, n)
                     && SameRules(after.rules, before.rules[..n] + [rule] + before.rules[n + 1..])
    case DeleteRule(id, expected) =>
      && after.meta == before.meta && Find(after.rules, id).None?
      && exists n :: FoundAt(before.rules, id, expected, n)
                     && SameRules(after.rules, before.rules[..n] + before.rules[n + 1..])
    case Replace(meta, rules, _) => after.meta == meta && SameRules(after.rules, rules)
  }

  lemma WantEffect(before: Ruleset, edit: Edit, w: Wanted, after: Ruleset)
    requires Want(before, edit) == Some(w) && Says(after, w) && DistinctIds(before.rules)
    ensures Effect(before, edit, after)
  {
    hide Find;
    match edit
    case CreateRule(rule) =>
    case UpdateRule(rule, expected) =>
      var n := IndexOf(before.rules, rule.id) - 1;
      assert before.rules[n := rule] == before.rules[..n] + [rule] + before.rules[n + 1..];
      assert FoundAt(before.rules, rule.id, expected, n);
    case DeleteRule(id, expected) =>
      var n := IndexOf(before.rules, id) - 1;
      assert FoundAt(before.rules, id, expected, n);
      DeletedGone(before.rules, after.rules, n);
    case Replace(_, _, _) =>
  }

  lemma DeletedGone(before: seq<Rule>, after: seq<Rule>, n: int)
    requires 0 <= n < |before| && DistinctIds(before) && SameRules(after, before[..n] + before[n + 1..])
    ensures Find(after, before[n].id).None?
  {
    var rest := before[..n] + before[n + 1..];
    forall r | r in after ensures r.id != before[n].id {
      var j :| 0 <= j < |after| && after[j] == r;
      assert SameRule(after[j], rest[j]) && rest[j] == before[if j < n then j else j + 1];
    }
  }

  /** In every run each successful edit takes effect on the version it replaces,
      whatever was read when: the ruleset says what the edit says of it, counts
      one version more, keeps its creation and is updated now. */
  lemma EditTakesEffect(states: seq<System>, steps: seq<Step>, m: nat, i: nat)
    requires Trace(states, steps) && m < |states| && i < |states[m].log|
    ensures |states[m].past| == |states[m].log| + 1
    ensures var before, c, after := states[m].past[i], states[m].log[i], states[m].past[i + 1];
            && Effect(before, c.edit, after)
            && after.version == before.version + 1 && after.createdAt == before.createdAt && after.updatedAt == c.now
  {
    AlwaysSound(states, steps, m);
    hide Trace, EditorSound, Effect, Find;
    EffectMade(states[m].past, i, states[m].log[i]);
  }

  lemma EffectMade(past: seq<Ruleset>, i: nat, c: Commit)
    requires Numbered(past) && i + 1 < |past| && Made(past, past[i], c, past[i + 1])
    ensures Effect(past[i], c.edit, past[i + 1])
    ensures past[i + 1].version == past[i].version + 1
    ensures past[i + 1].createdAt == past[i].createdAt && past[i + 1].updatedAt == c.now
  {
    hide Want, Effect, BodyEqual;
    var before, after := past[i], past[i + 1];
    var w :| Want(before, c.edit) == Some(w) && Admissible(w.rules)
             && after == Written(before, w.meta, Carried(At(past, c.from).rules, w.rules, c.now), c.now);
    hide Find;
    assert Says(after, w);
    WantEffect(before, c.edit, w, after);
  }
}
