/** Resolving a source address to the peer behind it: a workload's current
    address, else the most specific address group, else itself. */
module Resolution {
  import opened Orders
  import opened Addresses
  import opened Authored

  datatype Peer = OfWorkload(id: string, labels: map<string, string>) | OfGroup(group: string) | Unknown(addr: Addr)

  /** A workload's place in the index. */
  datatype Entry = Entry(key: string, labels: map<string, string>)

  datatype GroupEntry = GroupEntry(prefix: Prefix, key: string)

  datatype Index = Index(workloads: map<Addr, Entry>, groups: seq<GroupEntry>)

  /** An address group as the index reads it: each text by what it parses as
      untrimmed, so a padded one is OtherText here. */
  datatype Group = Group(id: string, cidrs: seq<Text>)

  // ----- What resolution should be -----

  predicate Holds(w: Workload, a: Addr) {
    !w.retired && exists b :: b in w.addresses && b.Unmap() == a
  }

  ghost predicate FirstHolder(ws: seq<Workload>, i: int, a: Addr) {
    0 <= i < |ws| && Holds(ws[i], a) && forall j :: 0 <= j < i ==> !Holds(ws[j], a)
  }

  /** The prefix a group's text stands for; none when it does not parse. */
  function PrefixOf(t: Text): seq<Prefix> {
    match t
    case PrefixText(p) => [Masked(p)]
    case AddrText(a) => [Masked(Prefix(a.WithoutZone(), a.BitLen()))]
    case OtherText(_) => []
  }

  /** Some text of a group contains an address, by a prefix of some length. */
  ghost predicate GroupHolds(g: Group, a: Addr, bits: int) {
    exists t :: t in g.cidrs && PrefixOf(t) != [] && PrefixOf(t)[0].bits == bits && Contains(PrefixOf(t)[0], a)
  }

  /** A group that holds an address by the longest prefix any group has for
      it, and has the least id of those that do. */
  ghost predicate BestGroup(gs: seq<Group>, id: string, a: Addr) {
    exists g, bits :: g in gs && g.id == id && GroupHolds(g, a, bits) && NoneBetter(gs, id, bits, a)
  }

  ghost predicate NoneBetter(gs: seq<Group>, id: string, bits: int, a: Addr) {
    forall h, b :: h in gs && GroupHolds(h, a, b) ==> b < bits || (b == bits && !StringLess(h.id, id))
  }

  /** What a peer must be for an address, given the registry and the groups. */
  ghost predicate Resolves(peer: Peer, ws: seq<Workload>, gs: seq<Group>, addr: Addr) {
    var a := addr.Unmap();
    if exists i :: FirstHolder(ws, i, a) then
      exists i :: FirstHolder(ws, i, a) && peer == OfWorkload(ws[i].id, LabelMap(ws[i].labels))
    else if exists g, bits :: g in gs && GroupHolds(g, a, bits) then
      peer.OfGroup? && BestGroup(gs, peer.group, a)
    else peer == Unknown(a)
  }

  /** The peer is determined: every registry and address has one answer. */
  lemma ResolvesUnique(p: Peer, q: Peer, ws: seq<Workload>, gs: seq<Group>, addr: Addr)
    requires Resolves(p, ws, gs, addr) && Resolves(q, ws, gs, addr)
    ensures p == q
  {
    hide Holds, GroupHolds, LabelMap;
    var a := addr.Unmap();
    if exists i :: FirstHolder(ws, i, a) {
      var i :| FirstHolder(ws, i, a) && p == OfWorkload(ws[i].id, LabelMap(ws[i].labels));
      var j :| FirstHolder(ws, j, a) && q == OfWorkload(ws[j].id, LabelMap(ws[j].labels));
      assert i == j;
    } else if exists g, bits :: g in gs && GroupHolds(g, a, bits) {
      BestUnique(gs, p.group, q.group, a);
    }
  }

  lemma BestUnique(gs: seq<Group>, x: string, y: string, a: Addr)
    requires BestGroup(gs, x, a) && BestGroup(gs, y, a)
    ensures x == y
  {
    hide GroupHolds, StringLess;
    var g, b :| g in gs && g.id == x && GroupHolds(g, a, b) && NoneBetter(gs, x, b, a);
    var h, c :| h in gs && h.id == y && GroupHolds(h, a, c) && NoneBetter(gs, y, c, a);
    assert b == c && !StringLess(x, y) && !StringLess(y, x);
    StringTotal(x, y);
  }

  lemma StringTotal(x: string, y: string)
    ensures StringLess(x, y) || x == y || StringLess(y, x)
  {
    StringOrder();
  }

  // ----- The workloads -----

  function EntryOf(w: Workload): Entry {
    Entry(w.id, LabelMap(w.labels))
  }

  function WithAddresses(m: map<Addr, Entry>, entry: Entry, addrs: seq<Addr>): map<Addr, Entry> {
    if addrs == [] then m
    else
      var r, a := WithAddresses(m, entry, addrs[..|addrs| - 1]), addrs[|addrs| - 1].Unmap();
      if a in r then r else r[a := entry]
  }

  function WorkloadIndex(ws: seq<Workload>): map<Addr, Entry> {
    if ws == [] then map[]
    else
      var m, w := WorkloadIndex(ws[..|ws| - 1]), ws[|ws| - 1];
      if w.retired then m else WithAddresses(m, EntryOf(w), w.addresses)
  }

  lemma {:induction false} WithAddressesSays(m: map<Addr, Entry>, entry: Entry, addrs: seq<Addr>, a: Addr)
    ensures var r := WithAddresses(m, entry, addrs);
            && (a in r <==> a in m || exists b :: b in addrs && b.Unmap() == a)
            && (a in r ==> r[a] == if a in m then m[a] else entry)
  {
    if addrs != [] {
      var front, last := addrs[..|addrs| - 1], addrs[|addrs| - 1];
      WithAddressesSays(m, entry, front, a);
      assert forall b :: b in addrs <==> b in front || b == last by { assert addrs == front + [last]; }
      if last.Unmap() == a { assert last in addrs; }
    }
  }

  /** The index holds an address for the first active workload that has it. */
  lemma {:induction false} WorkloadIndexSays(ws: seq<Workload>, a: Addr)
    ensures a !in WorkloadIndex(ws) ==> forall j :: 0 <= j < |ws| ==> !Holds(ws[j], a)
    ensures a in WorkloadIndex(ws) ==> exists i :: FirstHolder(ws, i, a) && WorkloadIndex(ws)[a] == EntryOf(ws[i])
  {
    if ws != [] {
      var n := |ws| - 1;
      var front, w := ws[..n], ws[n];
      WorkloadIndexSays(front, a);
      var m := WorkloadIndex(front);
      WithAddressesSays(m, EntryOf(w), w.addresses, a);
      if a in m {
        var i :| FirstHolder(front, i, a) && m[a] == EntryOf(front[i]);
        assert FirstHolder(ws, i, a) && ws[i] == front[i];
      } else if a in WorkloadIndex(ws) {
        assert FirstHolder(ws, n, a);
      }
    }
  }

  // ----- The groups -----

  function GroupEntries(g: Group, n: nat): seq<GroupEntry>
    requires n <= |g.cidrs|
  {
    if n == 0 then []
    else
      var p := PrefixOf(g.cidrs[n - 1]);
      GroupEntries(g, n - 1) + if p == [] then [] else [GroupEntry(p[0], g.id)]
  }

  function Entries(gs: seq<Group>): seq<GroupEntry> {
    if gs == [] then []
    else
      var g := gs[|gs| - 1];
      Entries(gs[..|gs| - 1]) + GroupEntries(g, |g.cidrs|)
  }

  /** Longest prefix first, then by id. */
  predicate EntryLess(a: GroupEntry, b: GroupEntry) {
    if a.prefix.bits != b.prefix.bits then a.prefix.bits > b.prefix.bits else StringLess(a.key, b.key)
  }

  function SortKey(e: GroupEntry): (int, string) {
    (-(e.prefix.bits as int), e.key)
  }

  lemma {:induction false} GroupEntriesSay(g: Group, n: nat, e: GroupEntry)
    requires n <= |g.cidrs|
    ensures e in GroupEntries(g, n) <==> e.key == g.id && exists i :: 0 <= i < n && PrefixOf(g.cidrs[i]) == [e.prefix]
  {
    hide PrefixOf;
    if n > 0 {
      GroupEntriesSay(g, n - 1, e);
      var p := PrefixOf(g.cidrs[n - 1]);
      PrefixOfOne(g.cidrs[n - 1]);
      if p == [e.prefix] && e.key == g.id {
        assert e == GroupEntry(p[0], g.id);
      }
    }
  }

  lemma PrefixOfOne(t: Text)
    ensures PrefixOf(t) == [] || PrefixOf(t) == [PrefixOf(t)[0]]
  {
  }

  lemma {:induction false} EntriesSay(gs: seq<Group>, e: GroupEntry)
    ensures e in Entries(gs) <==> exists g :: g in gs && e in GroupEntries(g, |g.cidrs|)
  {
    hide GroupEntries;
    if gs != [] {
      var front, last := gs[..|gs| - 1], gs[|gs| - 1];
      EntriesSay(front, e);
      assert forall g :: g in gs <==> g in front || g == last by { assert gs == front + [last]; }
      if e in GroupEntries(last, |last.cidrs|) { assert last in gs; }
    }
  }

  /** An entry containing an address is a group holding it by that length. */
  lemma EntryHolds(gs: seq<Group>, e: GroupEntry, a: Addr)
    requires e in Entries(gs) && Contains(e.prefix, a)
    ensures exists g :: g in gs && g.id == e.key && GroupHolds(g, a, e.prefix.bits)
  {
    hide Contains, PrefixOf, Entries, GroupEntries;
    EntriesSay(gs, e);
    var g :| g in gs && e in GroupEntries(g, |g.cidrs|);
    GroupEntriesSay(g, |g.cidrs|, e);
    var i :| 0 <= i < |g.cidrs| && PrefixOf(g.cidrs[i]) == [e.prefix];
    assert g.cidrs[i] in g.cidrs;
    assert GroupHolds(g, a, e.prefix.bits);
  }

  lemma HolderEntry(gs: seq<Group>, g: Group, a: Addr, bits: int) returns (e: GroupEntry)
    requires g in gs && GroupHolds(g, a, bits)
    ensures e in Entries(gs) && e.key == g.id && e.prefix.bits == bits && Contains(e.prefix, a)
  {
    hide Contains, PrefixOf, Entries, GroupEntries;
    var t :| t in g.cidrs && PrefixOf(t) != [] && PrefixOf(t)[0].bits == bits && Contains(PrefixOf(t)[0], a);
    var i :| 0 <= i < |g.cidrs| && g.cidrs[i] == t;
    e := GroupEntry(PrefixOf(t)[0], g.id);
    PrefixOfOne(t);
    GroupEntriesSay(g, |g.cidrs|, e);
    EntriesSay(gs, e);
  }

  lemma EntriesSorted(es: seq<GroupEntry>)
    ensures var s := Sort(es, EntryLess);
            && (forall i, j :: 0 <= i < j < |s| ==> !EntryLess(s[j], s[i]))
            && (forall e :: e in s <==> e in es)
  {
    hide StringLess, Sort, EntryLess, Lex, SortKey;
    var s := Sort(es, EntryLess);
    var lu := Lex(IntLess, StringLess);
    forall a, b ensures EntryLess(a, b) == lu(SortKey(a), SortKey(b)) { LessBySortKey(a, b); }
    SortMaps(es, SortKey, EntryLess, lu);
    KeysSorted(Map(SortKey, es));
    SortMembers(es, EntryLess);
    var ks := Map(SortKey, s);
    forall i, j | 0 <= i < j < |s| ensures !EntryLess(s[j], s[i]) {
      assert ks[i] == SortKey(s[i]) && ks[j] == SortKey(s[j]);
      assert !lu(ks[j], ks[i]);
    }
  }

  lemma LessBySortKey(a: GroupEntry, b: GroupEntry)
    ensures EntryLess(a, b) == Lex(IntLess, StringLess)(SortKey(a), SortKey(b))
  {
    hide StringLess;
    var x, y := SortKey(a), SortKey(b);
    assert Lex(IntLess, StringLess)(x, y) == if x.0 != y.0 then IntLess(x.0, y.0) else StringLess(x.1, y.1);
  }

  lemma KeysSorted(ks: seq<(int, string)>)
    ensures Sorted(Sort(ks, Lex(IntLess, StringLess)), Lex(IntLess, StringLess))
  {
    StringOrder();
    IntOrder();
    LexOrder(IntLess, StringLess);
    SortCorrect(ks, Lex(IntLess, StringLess));
  }

  // ----- Building and scanning the index -----

  function IndexOf(ws: seq<Workload>, gs: seq<Group>): Index {
    Index(WorkloadIndex(ws), Sort(Entries(gs), EntryLess))
  }

  method BuildIndex(workloads: seq<Workload>, groups: seq<Group>) returns (idx: Index)
    ensures idx == IndexOf(workloads, groups)
  {
    hide PrefixOf;
    var m: map<Addr, Entry> := map[];
    for i := 0 to |workloads|
      invariant m == WorkloadIndex(workloads[..i])
    {
      var w := workloads[i];
      assert workloads[..i + 1][..i] == workloads[..i];
      if w.retired {
        continue;
      }
      var entry := EntryOf(w);
      ghost var before := m;
      for k := 0 to |w.addresses|
        invariant m == WithAddresses(before, entry, w.addresses[..k])
      {
        assert w.addresses[..k + 1][..k] == w.addresses[..k];
        var a := w.addresses[k].Unmap();
        if a !in m {
          m := m[a := entry];
        }
      }
      assert w.addresses[..|w.addresses|] == w.addresses;
    }
    assert workloads[..|workloads|] == workloads;
    var es := ListEntries(groups);
    es := Sort(es, EntryLess);
    idx := Index(m, es);
  }

  method ListEntries(groups: seq<Group>) returns (es: seq<GroupEntry>)
    ensures es == Entries(groups)
  {
    hide GroupEntries;
    es := [];
    for i := 0 to |groups|
      invariant es == Entries(groups[..i])
    {
      assert groups[..i + 1][..i] == groups[..i];
      es := AppendEntries(es, groups[i]);
    }
    assert groups[..|groups|] == groups;
  }

  method AppendEntries(before: seq<GroupEntry>, g: Group) returns (es: seq<GroupEntry>)
    ensures es == before + GroupEntries(g, |g.cidrs|)
  {
    hide Masked;
    es := before;
    assert es == before + GroupEntries(g, 0);
    for k := 0 to |g.cidrs|
      invariant es == before + GroupEntries(g, k)
    {
      var p: Prefix;
      match g.cidrs[k] {
        case PrefixText(q) => p := q;
        case AddrText(a) => p := Prefix(a.WithoutZone(), a.BitLen());
        case OtherText(_) => continue;
      }
      es := es + [GroupEntry(Masked(p), g.id)];
    }
  }

  /** The scan of the sorted index finds what resolution should be. */
  method Resolve(idx: Index, addr: Addr, ghost ws: seq<Workload>, ghost gs: seq<Group>) returns (peer: Peer)
    requires idx == IndexOf(ws, gs)
    ensures Resolves(peer, ws, gs, addr)
  {
    hide WorkloadIndex, Entries, Sort, Contains, GroupHolds, FirstHolder, EntryLess, LabelMap, BestGroup;
    var a := addr.Unmap();
    WorkloadIndexSays(ws, a);
    NoFirstHolder(ws, a);
    if a in idx.workloads {
      var w := idx.workloads[a];
      return OfWorkload(w.key, w.labels);
    }
    for i := 0 to |idx.groups|
      invariant forall j :: 0 <= j < i ==> !Contains(idx.groups[j].prefix, a)
    {
      var g := idx.groups[i];
      if Contains(g.prefix, a) {
        FirstIsBest(gs, i, a);
        return OfGroup(g.key);
      }
    }
    NoneHolds(gs, a);
    return Unknown(a);
  }

  lemma NoFirstHolder(ws: seq<Workload>, a: Addr)
    ensures (forall j :: 0 <= j < |ws| ==> !Holds(ws[j], a)) ==> !exists i :: FirstHolder(ws, i, a)
  {
  }

  lemma FirstIsBest(gs: seq<Group>, i: nat, a: Addr)
    requires var s := Sort(Entries(gs), EntryLess);
             i < |s| && Contains(s[i].prefix, a) && forall j :: 0 <= j < i ==> !Contains(s[j].prefix, a)
    ensures BestGroup(gs, Sort(Entries(gs), EntryLess)[i].key, a)
    ensures exists g, bits :: g in gs && GroupHolds(g, a, bits)
  {
    hide Contains, GroupHolds, Entries, StringLess, Sort;
    var s := Sort(Entries(gs), EntryLess);
    EntriesSorted(Entries(gs));
    var e := s[i];
    EntryHolds(gs, e, a);
    forall h, b | h in gs && GroupHolds(h, a, b)
        ensures b < e.prefix.bits || (b == e.prefix.bits && !StringLess(h.id, e.key)) {
      var f := HolderEntry(gs, h, a, b);
      var j :| 0 <= j < |s| && s[j] == f;
      assert j >= i;
      if j == i { StringIrreflexive(e.key); } else { assert !EntryLess(f, e); }
    }
    assert NoneBetter(gs, e.key, e.prefix.bits, a);
  }

  lemma StringIrreflexive(x: string)
    ensures !StringLess(x, x)
  {
    StringOrder();
  }

  lemma NoneHolds(gs: seq<Group>, a: Addr)
    requires var s := Sort(Entries(gs), EntryLess); forall j :: 0 <= j < |s| ==> !Contains(s[j].prefix, a)
    ensures !exists g, bits :: g in gs && GroupHolds(g, a, bits)
  {
    hide Contains, GroupHolds, Entries, EntryLess, Sort;
    var s := Sort(Entries(gs), EntryLess);
    EntriesSorted(Entries(gs));
    forall g, bits | g in gs ensures !GroupHolds(g, a, bits) {
      if GroupHolds(g, a, bits) {
        var e := HolderEntry(gs, g, a, bits);
      }
    }
  }

  // ----- Groups as policy reads them -----

  predicate IndexCovers(t: Text, a: Addr) {
    PrefixOf(t) != [] && Contains(PrefixOf(t)[0], a)
  }

  /** The index finds the sources that policy admits by a group's text, for
      every unmapped address, exactly when the text is not a bare IPv4-mapped
      address: policy unmaps that one and the index does not. */
  lemma IndexAgreesWithPolicy(t: Text)
    ensures (forall a: Addr :: a.Unmap() == a ==> IndexCovers(t, a) == Covers(t, a))
       <==> !(t.AddrText? && t.addr.Unmap() != t.addr)
  {
    match t
    case PrefixText(p) =>
      forall a: Addr ensures IndexCovers(t, a) == Covers(t, a) { MaskedKeepsMeaning(p, a); }
    case OtherText(_) =>
    case AddrText(x) =>
      if x.Unmap() == x {
        forall a: Addr | a.Unmap() == a ensures IndexCovers(t, a) == Covers(t, a) {
          MaskedKeepsMeaning(Prefix(x.WithoutZone(), x.BitLen()), a);
          HostRouteExact(x, a);
        }
      } else {
        var a := x.Unmap();
        assert a.Unmap() == a && Covers(t, a) && !IndexCovers(t, a);
      }
  }

  /** What admission lets a group hold: texts that parse as prefixes. */
  predicate Admitted(g: Group) {
    forall i :: 0 <= i < |g.cidrs| ==> g.cidrs[i].PrefixText?
  }

  /** So for every group there is, the index finds a source in it exactly when
      the policy admits the source by it. */
  lemma AdmittedGroupsAgree(g: Group, a: Addr)
    requires Admitted(g) && a.Unmap() == a
    ensures (exists t :: t in g.cidrs && IndexCovers(t, a)) <==> (exists t :: t in g.cidrs && Covers(t, a))
  {
    forall t | t in g.cidrs ensures IndexCovers(t, a) == Covers(t, a) { IndexAgreesWithPolicy(t); }
  }
}
