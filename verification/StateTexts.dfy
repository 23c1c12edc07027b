/** The text a state version is the digest of, and when it names one state. */
module StateTexts {
  import opened Orders
  import opened Addresses
  import opened Rendered
  import opened Authored
  import opened Compiler
  import opened Meaning
  import opened Determined

  // ----- Spelling -----

  function Digit(d: nat): char
    requires d < 10
  {
    (('0' as int) + d) as char
  }

  function Decimal(n: nat): (s: string)
    ensures s != "" && forall c :: c in s ==> '0' <= c <= '9'
  {
    if n < 10 then [Digit(n)] else Decimal(n / 10) + [Digit(n % 10)]
  }

  lemma {:induction false} DecimalInjective(m: nat, n: nat)
    requires Decimal(m) == Decimal(n)
    ensures m == n
  {
    var s, t := Decimal(m), Decimal(n);
    assert s[|s| - 1] == t[|t| - 1];
    assert s[|s| - 1] == Digit(m % 10) && t[|t| - 1] == Digit(n % 10);
    assert m % 10 == n % 10;
    if m >= 10 && n >= 10 {
      assert s[..|s| - 1] == Decimal(m / 10) && t[..|t| - 1] == Decimal(n / 10);
      DecimalInjective(m / 10, n / 10);
    }
  }

  function ModeNumber(m: Mode): nat {
    match m
    case ModeUnspecified => 0
    case Visibility => 1
    case Simulation => 2
    case Enforced => 3
  }

  /** How the number of an address is spelled; its zone follows. */
  type Numerals = Addr -> string

  function Zone(a: Addr): string {
    if a.V6? then a.zone else ""
  }

  function AddrString(num: Numerals, a: Addr): string {
    num(a.WithoutZone()) + if Zone(a) == "" then "" else "%" + Zone(a)
  }

  /** What the spelling of numbers is like: one for each number, of characters
      above the percent sign other than the comma. */
  ghost predicate Plain(num: Numerals) {
    && (forall a :: num(a) != "" && forall c :: c in num(a) ==> c > '%' && c != ',')
    && (forall a: Addr, b: Addr :: a.WithoutZone() == a && b.WithoutZone() == b && num(a) == num(b) ==> a == b)
  }

  function LabelString(l: Label): string {
    l.key + "=" + l.value
  }

  function Join(xs: seq<string>): string {
    if xs == [] then "" else if |xs| == 1 then xs[0] else xs[0] + "," + Join(xs[1..])
  }

  function Sorted(xs: seq<string>): seq<string> {
    Sort(xs, StringLess)
  }

  function LabelText(labels: seq<Label>): string {
    Join(Sorted(Map(LabelString, labels)))
  }

  function AddressText(num: Numerals, addrs: seq<Addr>): string {
    Join(Sorted(Map(a => AddrString(num, a), addrs)))
  }

  function LineOf(num: Numerals, w: Workload): string {
    if w.retired then "x " + w.id
    else
      var lists := LabelText(w.labels) + " " + AddressText(num, w.addresses);
      "w " + (w.id + " " + (Decimal(ModeNumber(w.mode)) + " " + lists))
  }

  function ObjectLine(kind: char, id: string, version: nat): string {
    [kind, ' '] + (id + " " + Decimal(version))
  }

  function RulesetLine(x: Ruleset): string { ObjectLine('r', x.id, x.version) }
  function ServiceLine(x: Service): string { ObjectLine('s', x.id, x.version) }
  function GroupLine(x: AddressGroup): string { ObjectLine('g', x.id, x.version) }

  function Lines(num: Numerals, inputs: Inputs): seq<string> {
    Map(w => LineOf(num, w), inputs.workloads) + Map(RulesetLine, inputs.rulesets)
    + Map(ServiceLine, inputs.services) + Map(GroupLine, inputs.groups)
  }

  /** Lines as they are written to the digest. */
  function Ended(lines: seq<string>): string {
    if lines == [] then "" else lines[0] + "\n" + Ended(lines[1..])
  }

  function StateText(num: Numerals, inputs: Inputs): string {
    Ended(Sorted(Lines(num, inputs)))
  }

  /** The loops that gather the lines, sort and write them. */
  method StateVersion(num: Numerals, inputs: Inputs) returns (text: string)
    ensures text == StateText(num, inputs)
  {
    hide LineOf;
    var lines: seq<string> := [];
    for i := 0 to |inputs.workloads|
      invariant lines == Map(w => LineOf(num, w), inputs.workloads[..i])
    {
      var line := WorkloadLine(num, inputs.workloads[i]);
      lines := lines + [line];
    }
    assert inputs.workloads[..|inputs.workloads|] == inputs.workloads;
    var ls := RulesetLines(inputs.rulesets);
    lines := lines + ls;
    for i := 0 to |inputs.services|
      invariant lines == Map(w => LineOf(num, w), inputs.workloads) + Map(RulesetLine, inputs.rulesets)
                + Map(ServiceLine, inputs.services[..i])
    {
      lines := lines + [ServiceLine(inputs.services[i])];
    }
    assert inputs.services[..|inputs.services|] == inputs.services;
    ls := GroupLines(inputs.groups);
    lines := Sort(lines + ls, StringLess);
    text := "";
    var i := |lines|;
    assert lines[|lines|..] == [];
    while i > 0
      invariant 0 <= i <= |lines| && text == Ended(lines[i..])
    {
      i := i - 1;
      assert lines[i..][1..] == lines[i + 1..];
      text := lines[i] + "\n" + text;
    }
    assert lines[0..] == lines;
  }

  method RulesetLines(rss: seq<Ruleset>) returns (lines: seq<string>)
    ensures lines == Map(RulesetLine, rss)
  {
    lines := [];
    for i := 0 to |rss|
      invariant lines == Map(RulesetLine, rss[..i])
    {
      lines := lines + [RulesetLine(rss[i])];
    }
    assert rss[..|rss|] == rss;
  }

  method GroupLines(gs: seq<AddressGroup>) returns (lines: seq<string>)
    ensures lines == Map(GroupLine, gs)
  {
    lines := [];
    for i := 0 to |gs|
      invariant lines == Map(GroupLine, gs[..i])
    {
      lines := lines + [GroupLine(gs[i])];
    }
    assert gs[..|gs|] == gs;
  }

  method WorkloadLine(num: Numerals, w: Workload) returns (line: string)
    ensures line == LineOf(num, w)
  {
    if w.retired {
      return "x " + w.id;
    }
    var labels: seq<string> := [];
    for i := 0 to |w.labels|
      invariant labels == Map(LabelString, w.labels[..i])
    {
      labels := labels + [w.labels[i].key + "=" + w.labels[i].value];
    }
    assert w.labels[..|w.labels|] == w.labels;
    var addrs: seq<string> := [];
    for i := 0 to |w.addresses|
      invariant addrs == Map(a => AddrString(num, a), w.addresses[..i])
    {
      addrs := addrs + [AddrString(num, w.addresses[i])];
    }
    assert w.addresses[..|w.addresses|] == w.addresses;
    labels, addrs := Sort(labels, StringLess), Sort(addrs, StringLess);
    line := "w " + (w.id + " " + (Decimal(ModeNumber(w.mode)) + " " + (Join(labels) + " " + Join(addrs))));
  }

  // ----- Reading it back -----

  /** Two texts cut at the first separator are equal part by part. */
  lemma CutAt(a: string, x: string, b: string, y: string, c: char)
    requires c !in a && c !in b && a + [c] + x == b + [c] + y
    ensures a == b && x == y
  {
    var s, t := a + [c] + x, b + [c] + y;
    assert s[|a|] == c && t[|b|] == c;
    assert forall k :: 0 <= k < |a| ==> s[k] == a[k];
    assert forall k :: 0 <= k < |b| ==> t[k] == b[k];
    assert |a| == |b|;
    assert a == s[..|a|] && b == t[..|b|];
    assert x == s[|a| + 1..] && y == t[|b| + 1..];
  }

  predicate Without(xs: seq<string>, c: char) {
    forall i :: 0 <= i < |xs| ==> c !in xs[i] && xs[i] != ""
  }

  lemma {:induction false} JoinInjective(xs: seq<string>, ys: seq<string>)
    requires Without(xs, ',') && Without(ys, ',') && Join(xs) == Join(ys)
    ensures xs == ys
  {
    if xs == [] || ys == [] {
      JoinEmpty(xs);
      JoinEmpty(ys);
    } else if |xs| == 1 || |ys| == 1 {
      JoinComma(xs);
      JoinComma(ys);
      assert xs == [xs[0]] && ys == [ys[0]];
    } else {
      CutAt(xs[0], Join(xs[1..]), ys[0], Join(ys[1..]), ',');
      JoinInjective(xs[1..], ys[1..]);
      assert xs == [xs[0]] + xs[1..] && ys == [ys[0]] + ys[1..];
    }
  }

  lemma JoinEmpty(xs: seq<string>)
    requires Without(xs, ',')
    ensures Join(xs) == "" <==> xs == []
  {
  }

  lemma JoinComma(xs: seq<string>)
    requires Without(xs, ',')
    ensures ',' in Join(xs) <==> |xs| > 1
  {
    if |xs| > 1 { assert Join(xs)[|xs[0]|] == ','; }
  }

  lemma {:induction false} EndedInjective(xs: seq<string>, ys: seq<string>)
    requires (forall i :: 0 <= i < |xs| ==> '\n' !in xs[i]) && (forall i :: 0 <= i < |ys| ==> '\n' !in ys[i])
    requires Ended(xs) == Ended(ys)
    ensures xs == ys
  {
    if xs != [] && ys != [] {
      CutAt(xs[0], Ended(xs[1..]), ys[0], Ended(ys[1..]), '\n');
      EndedInjective(xs[1..], ys[1..]);
      assert xs == [xs[0]] + xs[1..] && ys == [ys[0]] + ys[1..];
    } else {
      assert |Ended(xs)| > 0 <==> xs != [];
      assert |Ended(ys)| > 0 <==> ys != [];
    }
  }

  /** The same members, if the sorted listings are the same. */
  lemma SortedSame(xs: seq<string>, ys: seq<string>)
    requires Sorted(xs) == Sorted(ys)
    ensures forall x :: x in xs <==> x in ys
  {
    SortMembers(xs, StringLess);
    SortMembers(ys, StringLess);
  }

  lemma SortedWithout(xs: seq<string>, c: char)
    requires Without(xs, c)
    ensures Without(Sorted(xs), c)
  {
    SortMembers(xs, StringLess);
    forall i | 0 <= i < |Sorted(xs)| ensures c !in Sorted(xs)[i] && Sorted(xs)[i] != "" {
      assert Sorted(xs)[i] in xs;
      var k :| 0 <= k < |xs| && xs[k] == Sorted(xs)[i];
    }
  }

  lemma JoinedSame(xs: seq<string>, ys: seq<string>)
    requires Without(xs, ',') && Without(ys, ',') && Join(Sorted(xs)) == Join(Sorted(ys))
    ensures forall x :: x in xs <==> x in ys
  {
    hide Sorted, Join;
    SortedWithout(xs, ',');
    SortedWithout(ys, ',');
    JoinInjective(Sorted(xs), Sorted(ys));
    SortedSame(xs, ys);
  }

  lemma {:induction false} JoinFree(xs: seq<string>, c: char)
    requires c != ',' && forall i :: 0 <= i < |xs| ==> c !in xs[i]
    ensures c !in Join(xs)
  {
    if |xs| > 1 { JoinFree(xs[1..], c); }
  }

  lemma SortedFree(xs: seq<string>, c: char)
    requires forall i :: 0 <= i < |xs| ==> c !in xs[i]
    ensures forall i :: 0 <= i < |Sorted(xs)| ==> c !in Sorted(xs)[i]
  {
    SortMembers(xs, StringLess);
    forall i | 0 <= i < |Sorted(xs)| ensures c !in Sorted(xs)[i] {
      assert Sorted(xs)[i] in xs;
      var k :| 0 <= k < |xs| && xs[k] == Sorted(xs)[i];
    }
  }

  // ----- What the parts are like -----

  /** Ids are free of the characters that end a field or a line. */
  predicate CleanId(id: string) {
    ' ' !in id && '\n' !in id
  }

  /** A label in the label grammar. */
  predicate CleanLabel(l: Label) {
    && (forall c :: c in l.key ==> c != '=' && c != ',' && c != ' ' && c != '\n')
    && (forall c :: c in l.value ==> c != ',' && c != ' ' && c != '\n')
  }

  ghost predicate CleanNames(inputs: Inputs) {
    && (forall w :: w in inputs.workloads ==> CleanId(w.id) && forall l :: l in w.labels ==> CleanLabel(l))
    && (forall x :: x in inputs.rulesets ==> CleanId(x.id))
    && (forall x :: x in inputs.services ==> CleanId(x.id))
    && (forall x :: x in inputs.groups ==> CleanId(x.id))
  }

  /** No zone of an address holds one of some characters. */
  ghost predicate ZonesFree(inputs: Inputs, barred: set<char>) {
    forall w, a, c :: w in inputs.workloads && a in w.addresses && c in barred ==> c !in Zone(a)
  }

  const SEPARATORS: set<char> := {',', '\n'}

  lemma LabelStringInjective(l: Label, m: Label)
    requires CleanLabel(l) && CleanLabel(m) && LabelString(l) == LabelString(m)
    ensures l == m
  {
    assert l.key + "=" + l.value == l.key + ['='] + l.value && m.key + "=" + m.value == m.key + ['='] + m.value;
    CutAt(l.key, l.value, m.key, m.value, '=');
  }

  lemma AddrStringInjective(num: Numerals, a: Addr, b: Addr)
    requires Plain(num) && AddrString(num, a) == AddrString(num, b)
    ensures a == b
  {
    var x, y := a.WithoutZone(), b.WithoutZone();
    ZoneShows(num, a);
    ZoneShows(num, b);
    if Zone(a) != "" && Zone(b) != "" {
      assert '%' !in num(x) && '%' !in num(y);
      CutAt(num(x), Zone(a), num(y), Zone(b), '%');
    }
  }

  lemma ZoneShows(num: Numerals, a: Addr)
    requires Plain(num)
    ensures '%' in AddrString(num, a) <==> Zone(a) != ""
    ensures Zone(a) != "" ==> AddrString(num, a) == num(a.WithoutZone()) + ['%'] + Zone(a)
    ensures Zone(a) == "" ==> AddrString(num, a) == num(a.WithoutZone())
  {
    if Zone(a) != "" { assert AddrString(num, a)[|num(a.WithoutZone())|] == '%'; }
  }

  lemma AddrStringFree(num: Numerals, a: Addr, c: char)
    requires Plain(num) && c in SEPARATORS && c !in Zone(a)
    ensures c !in AddrString(num, a) && AddrString(num, a) != ""
  {
    assert c !in num(a.WithoutZone());
  }

  lemma LabelsSame(x: seq<Label>, y: seq<Label>)
    requires (forall l :: l in x ==> CleanLabel(l)) && (forall l :: l in y ==> CleanLabel(l))
    requires LabelText(x) == LabelText(y)
    ensures forall l :: l in x ==> l in y
  {
    hide Sorted, Join, CleanLabel;
    var s, t := Map(LabelString, x), Map(LabelString, y);
    forall i | 0 <= i < |s| ensures ',' !in s[i] && s[i] != "" { LabelStringFree(x[i]); }
    forall i | 0 <= i < |t| ensures ',' !in t[i] && t[i] != "" { LabelStringFree(y[i]); }
    JoinedSame(s, t);
    forall l | l in x ensures l in y {
      var i :| 0 <= i < |x| && x[i] == l;
      assert s[i] in t;
      var k :| 0 <= k < |t| && t[k] == s[i];
      LabelStringInjective(x[i], y[k]);
    }
  }

  lemma LabelStringFree(l: Label)
    requires CleanLabel(l)
    ensures ',' !in LabelString(l) && ' ' !in LabelString(l) && '\n' !in LabelString(l) && LabelString(l) != ""
  {
  }

  lemma AddrsSame(num: Numerals, x: seq<Addr>, y: seq<Addr>)
    requires Plain(num) && (forall a :: a in x ==> ',' !in Zone(a)) && (forall a :: a in y ==> ',' !in Zone(a))
    requires AddressText(num, x) == AddressText(num, y)
    ensures forall a :: a in x ==> a in y
  {
    hide Sorted, Join, AddrString, Plain;
    var f := (a: Addr) => AddrString(num, a);
    var s, t := Map(f, x), Map(f, y);
    forall i | 0 <= i < |s| ensures ',' !in s[i] && s[i] != "" { AddrStringFree(num, x[i], ','); }
    forall i | 0 <= i < |t| ensures ',' !in t[i] && t[i] != "" { AddrStringFree(num, y[i], ','); }
    JoinedSame(s, t);
    forall a | a in x ensures a in y {
      var i :| 0 <= i < |x| && x[i] == a;
      assert s[i] in t;
      var k :| 0 <= k < |t| && t[k] == s[i];
      AddrStringInjective(num, x[i], y[k]);
    }
  }

  // ----- A line names what it was spelled from -----

  ghost predicate CleanWorkload(w: Workload) {
    && CleanId(w.id) && (forall l :: l in w.labels ==> CleanLabel(l))
    && (forall a :: a in w.addresses ==> ',' !in Zone(a) && '\n' !in Zone(a))
  }

  lemma LabelTextFree(w: Workload)
    requires CleanWorkload(w)
    ensures ' ' !in LabelText(w.labels) && '\n' !in LabelText(w.labels)
  {
    hide Sorted, Join, CleanLabel;
    var s := Map(LabelString, w.labels);
    forall i | 0 <= i < |s| ensures ' ' !in s[i] && '\n' !in s[i] { LabelStringFree(w.labels[i]); }
    SortedFree(s, ' ');
    SortedFree(s, '\n');
    JoinFree(Sorted(s), ' ');
    JoinFree(Sorted(s), '\n');
  }

  lemma AddressTextFree(num: Numerals, w: Workload)
    requires CleanWorkload(w) && Plain(num)
    ensures '\n' !in AddressText(num, w.addresses)
  {
    hide Sorted, Join, CleanLabel, Plain, AddrString;
    var s := Map(a => AddrString(num, a), w.addresses);
    forall i | 0 <= i < |s| ensures '\n' !in s[i] { AddrStringFree(num, w.addresses[i], '\n'); }
    SortedFree(s, '\n');
    JoinFree(Sorted(s), '\n');
  }

  lemma LineFree(num: Numerals, w: Workload)
    requires CleanWorkload(w) && Plain(num)
    ensures '\n' !in LineOf(num, w)
  {
    hide LabelText, AddressText, Plain, Decimal;
    LabelTextFree(w);
    AddressTextFree(num, w);
  }

  /** The fields after the kind of a workload's line. */
  lemma FieldsSame(id: string, mode: string, labels: string, addrs: string,
                   otherId: string, otherMode: string, otherLabels: string, otherAddrs: string)
    requires id + " " + (mode + " " + (labels + " " + addrs))
        == otherId + " " + (otherMode + " " + (otherLabels + " " + otherAddrs))
    requires ' ' !in id && ' ' !in otherId && ' ' !in mode && ' ' !in otherMode && ' ' !in labels && ' ' !in otherLabels
    ensures id == otherId && mode == otherMode && labels == otherLabels && addrs == otherAddrs
  {
    CutAt(id, mode + " " + (labels + " " + addrs), otherId, otherMode + " " + (otherLabels + " " + otherAddrs), ' ');
    CutAt(mode, labels + " " + addrs, otherMode, otherLabels + " " + otherAddrs, ' ');
    CutAt(labels, addrs, otherLabels, otherAddrs, ' ');
  }

  lemma KindSame(a: string, b: string, c: char, d: char)
    requires [c, ' '] + a == [d, ' '] + b
    ensures c == d && a == b
  {
    assert ([c, ' '] + a)[0] == c && ([d, ' '] + b)[0] == d;
    assert ([c, ' '] + a)[2..] == a && ([d, ' '] + b)[2..] == b;
  }

  /** With clean names and zones free of the separators, workloads spelled the
      same cannot be told apart by a render. */
  lemma LineNamesView(num: Numerals, w: Workload, v: Workload)
    requires Plain(num) && CleanWorkload(w) && CleanWorkload(v) && LineOf(num, w) == LineOf(num, v)
    requires forall i, j :: 0 <= i < j < |w.labels| ==> w.labels[i].key != w.labels[j].key
    requires forall i, j :: 0 <= i < j < |v.labels| ==> v.labels[i].key != v.labels[j].key
    ensures SameView(w, v)
  {
    hide LabelText, AddressText, Plain, Decimal, CleanLabel, LabelMap;
    if w.retired || v.retired {
      assert LineOf(num, w)[0] == LineOf(num, v)[0];
      KindSame(w.id, v.id, 'x', 'x');
    } else {
      LabelTextFree(w);
      LabelTextFree(v);
      var m, n := Decimal(ModeNumber(w.mode)), Decimal(ModeNumber(v.mode));
      var x := w.id + " " + (m + " " + (LabelText(w.labels) + " " + AddressText(num, w.addresses)));
      var y := v.id + " " + (n + " " + (LabelText(v.labels) + " " + AddressText(num, v.addresses)));
      KindSame(x, y, 'w', 'w');
      FieldsSame(w.id, m, LabelText(w.labels), AddressText(num, w.addresses),
                 v.id, n, LabelText(v.labels), AddressText(num, v.addresses));
      DecimalInjective(ModeNumber(w.mode), ModeNumber(v.mode));
      LabelsSame(w.labels, v.labels);
      LabelsSame(v.labels, w.labels);
      AddrsSame(num, w.addresses, v.addresses);
      AddrsSame(num, v.addresses, w.addresses);
      SameLabels(w.labels, v.labels);
      assert Elems(w.addresses) == Elems(v.addresses);
    }
  }

  lemma SameLabels(x: seq<Label>, y: seq<Label>)
    requires forall l :: l in x <==> l in y
    requires forall i, j :: 0 <= i < j < |x| ==> x[i].key != x[j].key
    requires forall i, j :: 0 <= i < j < |y| ==> y[i].key != y[j].key
    ensures LabelMap(x) == LabelMap(y)
  {
    hide LabelMap;
    LabelMapMember(x);
    LabelMapMember(y);
    forall k | k in LabelMap(x) ensures k in LabelMap(y) && LabelMap(y)[k] == LabelMap(x)[k] {
      assert Label(k, LabelMap(x)[k]) in y;
    }
    forall k | k in LabelMap(y) ensures k in LabelMap(x) {
      assert Label(k, LabelMap(y)[k]) in x;
    }
  }

  lemma ObjectLineNames(c: char, id: string, version: nat, otherId: string, otherVersion: nat)
    requires CleanId(id) && CleanId(otherId) && ObjectLine(c, id, version) == ObjectLine(c, otherId, otherVersion)
    ensures id == otherId && version == otherVersion
  {
    hide Decimal;
    KindSame(id + " " + Decimal(version), otherId + " " + Decimal(otherVersion), c, c);
    CutAt(id, Decimal(version), otherId, Decimal(otherVersion), ' ');
    DecimalInjective(version, otherVersion);
  }

  lemma ObjectLineFree(c: char, id: string, version: nat)
    requires CleanId(id) && c != '\n'
    ensures '\n' !in ObjectLine(c, id, version)
  {
    hide Decimal;
  }

  // ----- The text names what a render reads -----

  lemma LinesMember(num: Numerals, inputs: Inputs, l: string)
    ensures l in Lines(num, inputs) <==>
            || (exists w :: w in inputs.workloads && l == LineOf(num, w))
            || (exists x :: x in inputs.rulesets && l == RulesetLine(x))
            || (exists x :: x in inputs.services && l == ServiceLine(x))
            || (exists x :: x in inputs.groups && l == GroupLine(x))
  {
    hide LineOf, RulesetLine, ServiceLine, GroupLine;
    MapMember(w => LineOf(num, w), inputs.workloads, l);
    MapMember(RulesetLine, inputs.rulesets, l);
    MapMember(ServiceLine, inputs.services, l);
    MapMember(GroupLine, inputs.groups, l);
  }

  lemma MapMember<T>(f: T -> string, s: seq<T>, l: string)
    ensures l in Map(f, s) <==> exists x :: x in s && l == f(x)
  {
    if x :| x in s && l == f(x) {
      var i :| 0 <= i < |s| && s[i] == x;
      assert Map(f, s)[i] == l;
    }
  }

  ghost predicate Clean(inputs: Inputs) {
    CleanNames(inputs) && ZonesFree(inputs, SEPARATORS)
  }

  lemma CleanParts(inputs: Inputs, w: Workload)
    requires Clean(inputs) && w in inputs.workloads
    ensures CleanWorkload(w)
  {
    assert ',' in SEPARATORS && '\n' in SEPARATORS;
  }

  lemma LinesFree(num: Numerals, inputs: Inputs, l: string)
    requires Plain(num) && Clean(inputs) && l in Lines(num, inputs)
    ensures '\n' !in l
  {
    hide LineOf, Plain;
    LinesMember(num, inputs, l);
    if w :| w in inputs.workloads && l == LineOf(num, w) {
      CleanParts(inputs, w);
      LineFree(num, w);
    } else if x :| x in inputs.rulesets && l == RulesetLine(x) {
      ObjectLineFree('r', x.id, x.version);
    } else if x :| x in inputs.services && l == ServiceLine(x) {
      ObjectLineFree('s', x.id, x.version);
    } else {
      var x :| x in inputs.groups && l == GroupLine(x);
      ObjectLineFree('g', x.id, x.version);
    }
  }

  /** Equal texts have the same lines. */
  lemma SameLines(num: Numerals, a: Inputs, b: Inputs)
    requires Plain(num) && Clean(a) && Clean(b) && StateText(num, a) == StateText(num, b)
    ensures forall l :: l in Lines(num, a) <==> l in Lines(num, b)
  {
    hide Plain, Clean, Lines, Sorted;
    var x, y := Lines(num, a), Lines(num, b);
    forall i | 0 <= i < |x| ensures '\n' !in x[i] { LinesFree(num, a, x[i]); }
    forall i | 0 <= i < |y| ensures '\n' !in y[i] { LinesFree(num, b, y[i]); }
    SortedFree(x, '\n');
    SortedFree(y, '\n');
    EndedInjective(Sorted(x), Sorted(y));
    SortedSame(x, y);
  }

  /** The first character of a line tells what it is the line of. */
  lemma Kinds(num: Numerals, inputs: Inputs, l: string)
    requires l in Lines(num, inputs)
    ensures l != ""
    ensures l[0] == 'w' || l[0] == 'x' <==> exists w :: w in inputs.workloads && l == LineOf(num, w)
    ensures l[0] == 'r' <==> exists x :: x in inputs.rulesets && l == RulesetLine(x)
    ensures l[0] == 's' <==> exists x :: x in inputs.services && l == ServiceLine(x)
    ensures l[0] == 'g' <==> exists x :: x in inputs.groups && l == GroupLine(x)
  {
    hide Lines, LabelText, AddressText, Decimal;
    LinesMember(num, inputs, l);
  }

  lemma ViewsCarried(num: Numerals, a: Inputs, b: Inputs)
    requires Plain(num) && Clean(a) && Clean(b) && DistinctLabels(a) && DistinctLabels(b)
    requires forall l :: l in Lines(num, a) ==> l in Lines(num, b)
    ensures ViewsWithin(a.workloads, b.workloads)
  {
    hide Plain, Clean, Lines, LineOf, SameView;
    forall w | w in a.workloads ensures exists v :: v in b.workloads && SameView(w, v) {
      var l := LineOf(num, w);
      LinesMember(num, a, l);
      Kinds(num, a, l);
      Kinds(num, b, l);
      var v :| v in b.workloads && l == LineOf(num, v);
      CleanParts(a, w);
      CleanParts(b, v);
      LineNamesView(num, w, v);
    }
  }

  lemma ObjectsCarried(num: Numerals, a: Inputs, b: Inputs)
    requires CleanNames(a) && CleanNames(b) && Versioned(a, b)
    requires forall l :: l in Lines(num, a) ==> l in Lines(num, b)
    ensures Elems(a.rulesets) <= Elems(b.rulesets)
    ensures Elems(a.services) <= Elems(b.services)
    ensures Elems(a.groups) <= Elems(b.groups)
  {
    hide Lines, ObjectLine;
    forall x | x in a.rulesets ensures x in b.rulesets {
      LinesMember(num, a, RulesetLine(x));
      Kinds(num, a, RulesetLine(x));
      Kinds(num, b, RulesetLine(x));
      var y :| y in b.rulesets && RulesetLine(x) == RulesetLine(y);
      ObjectLineNames('r', x.id, x.version, y.id, y.version);
    }
    forall x | x in a.services ensures x in b.services {
      LinesMember(num, a, ServiceLine(x));
      Kinds(num, a, ServiceLine(x));
      Kinds(num, b, ServiceLine(x));
      var y :| y in b.services && ServiceLine(x) == ServiceLine(y);
      ObjectLineNames('s', x.id, x.version, y.id, y.version);
    }
    forall x | x in a.groups ensures x in b.groups {
      LinesMember(num, a, GroupLine(x));
      Kinds(num, a, GroupLine(x));
      Kinds(num, b, GroupLine(x));
      var y :| y in b.groups && GroupLine(x) == GroupLine(y);
      ObjectLineNames('g', x.id, x.version, y.id, y.version);
    }
  }

  /** Equal texts mean equal renders, when names are clean and no zone holds a
      separator. */
  lemma StateTextPinsRender(num: Numerals, a: Inputs, b: Inputs)
    requires Plain(num) && Clean(a) && Clean(b)
    requires Keyed(a) && Keyed(b) && DistinctLabels(a) && DistinctLabels(b) && Versioned(a, b)
    requires StateText(num, a) == StateText(num, b)
    ensures Render(a) == Render(b)
  {
    hide Plain, Lines, StateText, Render;
    SameLines(num, a, b);
    ViewsCarried(num, a, b);
    ViewsCarried(num, b, a);
    ObjectsCarried(num, a, b);
    ObjectsCarried(num, b, a);
    RenderDetermined(a, b);
  }

  // ----- Which zones must be kept out -----

  ghost predicate Sound(inputs: Inputs) {
    CleanNames(inputs) && Keyed(inputs) && DistinctLabels(inputs)
  }

  /** Equal texts mean equal renders for all states whose zones are free of
      some characters. */
  ghost predicate PinsRender(num: Numerals, barred: set<char>) {
    forall a, b ::
      (&& Sound(a) && Sound(b) && Versioned(a, b) && ZonesFree(a, barred) && ZonesFree(b, barred)
       && StateText(num, a) == StateText(num, b))
      ==> Render(a) == Render(b)
  }

  /** One workload, and a rule that admits to it its own addresses. */
  function Own(addrs: seq<Addr>): Inputs {
    var only := map["k" := ["v"]];
    var rule := Rule("r", Inbound, true, [PeerWorkloads(only)], [], [ServiceEntry(Tcp, [])]);
    Inputs([Workload("a", false, [Label("k", "v")], Visibility, addrs)],
           [Ruleset("s", 1, true, only, [rule])], [], [])
  }

  lemma OwnSound(addrs: seq<Addr>)
    ensures Sound(Own(addrs))
  {
    var i := Own(addrs);
    assert forall w :: w in i.workloads ==> w == i.workloads[0];
    assert forall x :: x in i.rulesets ==> x == i.rulesets[0];
  }

  /** The rule admits exactly the workload's addresses, zones aside. */
  lemma OwnPermits(addrs: seq<Addr>, src: Addr)
    ensures AuthoredPermits(Own(addrs), map["k" := "v"], src, Tcp, 1)
       <==> exists a :: a in addrs && src == a.Unmap().WithoutZone()
  {
    var i := Own(addrs);
    var w, rs := i.workloads[0], i.rulesets[0];
    var rule := rs.rules[0];
    assert LabelMap(w.labels) == map["k" := "v"] by { assert w.labels[..0] == []; }
    assert Matches(rs.scope, map["k" := "v"]) by { assert "v" in rs.scope["k"]; }
    assert w in i.workloads && rs in i.rulesets && rule in rs.rules && rule.peers[0] in rule.peers;
    assert PeerAdmits(i, rule.peers[0], src) <==> exists a :: a in addrs && src == a.Unmap().WithoutZone();
    assert Offers(i, rule, rule.entries[0]) by { assert rule.entries[0] in rule.entries; }
    assert Covered(1, rule.entries[0].ports);
    assert Applies(rs, rule, map["k" := "v"]);
  }

  lemma OwnRendersDiffer(x: seq<Addr>, y: seq<Addr>, src: Addr)
    requires exists a :: a in x && src == a.Unmap().WithoutZone()
    requires forall a :: a in y ==> src != a.Unmap().WithoutZone()
    ensures Render(Own(x)) != Render(Own(y))
  {
    hide Render, RenderWorkload, AuthoredPermits;
    OwnPermits(x, src);
    OwnPermits(y, src);
    OwnMeans(x, src);
    OwnMeans(y, src);
  }

  lemma OwnMeans(addrs: seq<Addr>, src: Addr)
    ensures "a" in Render(Own(addrs))
    ensures Permits(Render(Own(addrs))["a"], src, Tcp, 1) <==> AuthoredPermits(Own(addrs), map["k" := "v"], src, Tcp, 1)
  {
    hide Render, RenderWorkload, AuthoredPermits, Permits;
    var i := Own(addrs);
    var w := i.workloads[0];
    OwnSound(addrs);
    assert w in i.workloads;
    assert LabelMap(w.labels) == map["k" := "v"] by { assert w.labels[..0] == []; }
    RenderCovers(i);
    RenderPreservesMeaning(i, w, src, Tcp, 1);
  }

  lemma {:induction false} LessExtended(a: seq<int>, b: seq<int>, z: seq<int>)
    requires SeqLess(a, b) && z != [] && forall i :: 0 <= i < |b| ==> z[0] < b[i]
    ensures SeqLess(a + z, b)
  {
    if a == [] {
      assert a + z == z;
    } else {
      assert (a + z)[1..] == a[1..] + z;
      if a[0] == b[0] { LessExtended(a[1..], b[1..], z); }
    }
  }

  lemma ZonedLess(num: Numerals, p: Addr, q: Addr, z: string)
    requires Plain(num) && StringLess(num(p), num(q))
    ensures StringLess(num(p) + ("%" + z), num(q))
  {
    var n, zone := num(q), "%" + z;
    assert Codes(num(p) + zone) == Codes(num(p)) + Codes(zone);
    forall i | 0 <= i < |Codes(n)| ensures Codes(zone)[0] < Codes(n)[i] { assert n[i] in n; }
    LessExtended(Codes(num(p)), Codes(n), Codes(zone));
  }

  lemma SortPair(a: string, b: string)
    requires StringLess(a, b)
    ensures Sorted([a, b]) == [a, b]
  {
    assert !StringLess(b, a) by { StringOrder(); }
    hide StringLess;
    SortOne(b);
    assert [a, b][1..] == [b];
    assert Sorted([a, b]) == InsertSorted(a, Sorted([b]), StringLess) == [a] + [b];
  }

  lemma SortOne(a: string)
    ensures Sorted([a]) == [a]
  {
    assert [a][1..] == [];
    assert Sorted([]) == [];
    assert Sorted([a]) == InsertSorted(a, [], StringLess) == [a] + [];
  }

  /** Two addresses, the first with a zone, are spelled as one address whose
      zone goes on with a comma and the second. */
  lemma CommaCollides(num: Numerals, v: U128, w: U128)
    requires Plain(num) && StringLess(num(V6(v, "")), num(V6(w, "")))
    ensures StateText(num, Own([V6(v, "x"), V6(w, "")])) == StateText(num, Own([V6(v, "x," + num(V6(w, "")))]))
  {
    hide Plain, Sorted, StringLess, Ended, LabelText;
    var p, q := V6(v, ""), V6(w, "");
    var one, two := [V6(v, "x," + num(q))], [V6(v, "x"), q];
    ZonedLess(num, p, q, "x");
    assert "%" + "x" == "%x";
    var f := (a: Addr) => AddrString(num, a);
    assert f(two[0]) == num(p) + "%x" && f(two[1]) == num(q) + "" == num(q);
    assert Map(f, two) == [num(p) + "%x", num(q)];
    SortPair(num(p) + "%x", num(q));
    assert Join([num(p) + "%x", num(q)]) == num(p) + "%x" + "," + num(q);
    assert Map(f, one) == [num(p) + ("%" + ("x," + num(q)))];
    SortOne(num(p) + ("%" + ("x," + num(q))));
    assert num(p) + "%x" + "," + num(q) == num(p) + ("%" + ("x," + num(q)));
    assert AddressText(num, one) == AddressText(num, two);
    assert Own(one).workloads[0] == Own(two).workloads[0].(addresses := one);
    assert LineOf(num, Own(one).workloads[0]) == LineOf(num, Own(two).workloads[0]);
    assert Lines(num, Own(one)) == Lines(num, Own(two));
  }

  lemma CommaUnpins(num: Numerals, v: U128, w: U128, barred: set<char>)
    requires Plain(num) && StringLess(num(V6(v, "")), num(V6(w, ""))) && barred <= SEPARATORS && ',' !in barred
    requires v != w && V6(v, "").Unmap() == V6(v, "") && V6(w, "").Unmap() == V6(w, "")
    ensures !PinsRender(num, barred)
  {
    hide StringLess, StateText, Render, Sound, Plain;
    var q := V6(w, "");
    var two, one := [V6(v, "x"), q], [V6(v, "x," + num(q))];
    CommaCollides(num, v, w);
    assert q in two && q.Unmap().WithoutZone() == q;
    assert forall a :: a in one ==> a.Unmap().WithoutZone() == V6(v, "");
    OwnRendersDiffer(two, one, q);
    OwnSound(two);
    OwnSound(one);
    OwnVersioned(two, one);
    PlainFree(num, q);
    assert ZonesFree(Own(two), barred) && ZonesFree(Own(one), barred);
  }

  lemma OwnVersioned(x: seq<Addr>, y: seq<Addr>)
    ensures Versioned(Own(x), Own(y))
  {
    assert forall r :: r in Own(x).rulesets ==> r == Own(x).rulesets[0];
    assert forall r :: r in Own(y).rulesets ==> r == Own(y).rulesets[0];
  }

  lemma PlainFree(num: Numerals, a: Addr)
    requires Plain(num)
    ensures '\n' !in num(a) && ',' !in num(a)
  {
  }

  // ----- Lines -----

  /** Workloads without labels and with one address each. */
  function Bare(id: string, a: Addr): Workload {
    Workload(id, false, [], Visibility, [a])
  }

  function Rows(ws: seq<Workload>): Inputs {
    Inputs(ws, [], [], [])
  }

  lemma RowsSound(ws: seq<Workload>)
    requires forall i, j :: 0 <= i < j < |ws| ==> ws[i].id != ws[j].id
    requires forall w :: w in ws ==> CleanId(w.id) && w.labels == []
    ensures Sound(Rows(ws))
  {
  }

  function BareLine(num: Numerals, id: string, a: Addr): string {
    "w " + (id + " " + (Decimal(1) + " " + ("" + " " + AddrString(num, a))))
  }

  lemma BareLineOf(num: Numerals, id: string, a: Addr)
    ensures LineOf(num, Bare(id, a)) == BareLine(num, id, a)
  {
    hide AddrString, Decimal;
    var w := Bare(id, a);
    assert Map(LabelString, w.labels) == [];
    assert LabelText(w.labels) == "";
    var f := (x: Addr) => AddrString(num, x);
    assert Map(f, w.addresses) == [AddrString(num, a)];
    SortOne(AddrString(num, a));
  }

  lemma BareLines(num: Numerals, p: Addr, a: Addr)
    ensures Lines(num, Rows([Bare("a", p)])) == [BareLine(num, "a", p)]
    ensures Lines(num, Rows([Bare("a", p), Bare("b", a)])) == [BareLine(num, "a", p), BareLine(num, "b", a)]
  {
    hide LineOf, BareLine;
    BareLineOf(num, "a", p);
    BareLineOf(num, "b", a);
  }

  lemma BareLineGoesOn(num: Numerals, v: U128, more: string)
    ensures BareLine(num, "a", V6(v, "x\n" + more)) == BareLine(num, "a", V6(v, "x")) + "\n" + more
  {
    hide Decimal;
    var p, z := V6(v, "x"), V6(v, "x\n" + more);
    assert "%" + ("x\n" + more) == "%" + "x" + ("\n" + more);
    assert AddrString(num, z) == AddrString(num, p) + ("\n" + more);
  }

  lemma EndedPair(a: string, b: string)
    ensures Ended([a, b]) == Ended([a + "\n" + b])
  {
    assert [a, b][1..] == [b] && [b][1..] == [] && [a + "\n" + b][1..] == [];
    assert Ended([b]) == b + "\n" + "";
  }

  /** Two workloads are spelled as one whose address has a zone that goes on
      with a line end and the line of the second. */
  lemma NewlineCollides(num: Numerals, a: Addr, v: U128)
    ensures StateText(num, Rows([Bare("a", V6(v, "x")), Bare("b", a)]))
         == StateText(num, Rows([Bare("a", V6(v, "x\n" + BareLine(num, "b", a)))]))
  {
    hide Sorted, BareLine, StringLess, Lines, Ended;
    var second := BareLine(num, "b", a);
    var p, z := V6(v, "x"), V6(v, "x\n" + second);
    var first := BareLine(num, "a", p);
    BareLines(num, p, a);
    BareLines(num, z, a);
    BareLineGoesOn(num, v, second);
    RowsLess(num, p, a);
    SortPair(first, second);
    SortOne(first + "\n" + second);
    EndedPair(first, second);
  }

  lemma RowsLess(num: Numerals, a: Addr, b: Addr)
    ensures StringLess(BareLine(num, "a", a), BareLine(num, "b", b))
  {
    hide AddrString, Decimal;
    var x, y := Codes(BareLine(num, "a", a)), Codes(BareLine(num, "b", b));
    assert x[0] == y[0] && x[1] == y[1] && x[2] < y[2];
    assert x[1..][0] == x[1] && y[1..][0] == y[1] && x[1..][1..][0] == x[2] && y[1..][1..][0] == y[2];
    assert SeqLess(x[1..][1..], y[1..][1..]);
    assert SeqLess(x[1..], y[1..]);
  }

  lemma RowsRenderDiffer(p: Addr, a: Addr, z: Addr)
    ensures Render(Rows([Bare("a", p), Bare("b", a)])) != Render(Rows([Bare("a", z)]))
  {
    hide Render, RenderWorkload;
    var two, one := Rows([Bare("a", p), Bare("b", a)]), Rows([Bare("a", z)]);
    RenderCovers(two);
    RenderCovers(one);
    assert two.workloads[1] in two.workloads && two.workloads[1].id == "b";
    assert "b" in Render(two) && "b" !in Render(one);
  }

  lemma BareLineFree(num: Numerals, a: Addr)
    requires Plain(num) && Zone(a) == ""
    ensures ',' !in BareLine(num, "b", a)
  {
    hide Decimal;
    PlainFree(num, a.WithoutZone());
    hide Plain;
    assert ',' !in Decimal(1);
  }

  lemma NewlineUnpins(num: Numerals, v: U128, barred: set<char>)
    requires Plain(num) && barred <= SEPARATORS && '\n' !in barred
    ensures !PinsRender(num, barred)
  {
    hide StateText, Render, Sound, Plain, Decimal;
    var a := V6(v, "");
    var second := BareLine(num, "b", a);
    var z := V6(v, "x\n" + second);
    var two, one := Rows([Bare("a", V6(v, "x")), Bare("b", a)]), Rows([Bare("a", z)]);
    NewlineCollides(num, a, v);
    RowsSound(two.workloads);
    RowsSound(one.workloads);
    RowsRenderDiffer(V6(v, "x"), a, z);
    BareLineFree(num, a);
    assert ZonesFree(two, barred) && ZonesFree(one, barred);
    assert Versioned(two, one);
  }

  /** The text pins down the render, for all states whose zones are free of some
      of the separators, exactly when they are free of both: the comma that
      joins addresses and the end of a line. */
  lemma PinsRenderIff(num: Numerals, barred: set<char>)
    requires Plain(num) && barred <= SEPARATORS
    ensures PinsRender(num, barred) <==> barred == SEPARATORS
  {
    hide StringLess, StateText, Render, Plain, Keyed;
    if barred == SEPARATORS {
      forall a, b | (&& Sound(a) && Sound(b) && Versioned(a, b) && ZonesFree(a, barred) && ZonesFree(b, barred)
                     && StateText(num, a) == StateText(num, b))
        ensures Render(a) == Render(b)
      {
        StateTextPinsRender(num, a, b);
      }
    } else if ',' !in barred {
      var v: U128, w: U128 := 0x2001_0db8_0000_0000_0000_0000_0000_0001, 0x2001_0db8_0000_0000_0000_0000_0000_0002;
      NumbersApart(num, v, w);
      if StringLess(num(V6(v, "")), num(V6(w, ""))) {
        CommaUnpins(num, v, w, barred);
      } else {
        CommaUnpins(num, w, v, barred);
      }
    } else {
      NewlineUnpins(num, 1, barred);
    }
  }

  lemma NumbersApart(num: Numerals, v: U128, w: U128)
    requires Plain(num) && v != w
    ensures StringLess(num(V6(v, "")), num(V6(w, ""))) || StringLess(num(V6(w, "")), num(V6(v, "")))
  {
    StringOrder();
    assert num(V6(v, "")) != num(V6(w, ""));
  }
}
