/** The in-process registry of live sync streams: registration, supersession
    and the hand-off of the offline mark, as steps under its one lock. */
module StreamRegistry {

  /** live maps a workload to its registered stream; marking maps a workload
      to the stream that has left and whose offline mark is being written. */
  datatype Registry = Registry(live: map<string, nat>, marking: map<string, nat>)

  /** One turn of add under the lock: it registers unless a mark is pending. */
  function AddTo(r: Registry, w: string, k: nat): Registry {
    if w in r.marking then r else r.(live := r.live[w := k])
  }

  /** remove: a stream that is still the registered one leaves, and holds the
      workload for its mark. */
  function RemoveFrom(r: Registry, w: string, k: nat): Registry {
    if w in r.live && r.live[w] == k then Registry(r.live - {w}, r.marking[w := k]) else r
  }

  function MarkedIn(r: Registry, w: string): Registry {
    r.(marking := r.marking - {w})
  }

  class Sessions {
    var live: map<string, nat>
    var marking: map<string, nat>

    constructor ()
      ensures View() == Registry(map[], map[])
    {
      live, marking := map[], map[];
    }

    function View(): Registry
      reads this
    {
      Registry(live, marking)
    }

    /** Registers k for w, reporting the stream it cancelled, or reports that
        a pending mark must be waited out. */
    method TryAdd(w: string, k: nat) returns (added: bool, cancelled: set<nat>)
      modifies this
      ensures View() == AddTo(old(View()), w, k)
      ensures added <==> w !in old(marking)
      ensures cancelled == if added && w in old(live) then {old(live)[w]} else {}
    {
      cancelled := {};
      if w in marking {
        return false, {};
      }
      if w in live {
        cancelled := {live[w]};
      }
      live := live[w := k];
      added := true;
    }

    method Remove(w: string, k: nat) returns (ok: bool)
      modifies this
      ensures View() == RemoveFrom(old(View()), w, k)
      ensures ok <==> w in old(live) && old(live)[w] == k
    {
      if w !in live || live[w] != k {
        return false;
      }
      live := live - {w};
      marking := marking[w := k];
      return true;
    }

    method Marked(w: string)
      modifies this
      ensures View() == MarkedIn(old(View()), w)
    {
      marking := marking - {w};
    }
  }

  // ----- Every interleaving of streams on one replica -----

  datatype Phase = Opening | Registered | Marking | Gone

  /** A stream, with how often it was superseded, taken for marking, tried to
      write the offline state and wrote it. */
  datatype Stream = Stream(
    w: string, phase: Phase, everRegistered: bool, superseded: nat, marked: nat, attempts: nat, writes: nat)

  datatype State = State(registry: Registry, streams: map<nat, Stream>)

  datatype Step =
    | Arrive(k: nat, w: string)
    | Add(k: nat)
    | GiveUp(k: nat)
    | End(k: nat)
    | WriteOffline(k: nat)
    | FailOffline(k: nat)
    | Marked(k: nat)

  ghost predicate Enabled(s: State, step: Step) {
    match step
    case Arrive(k, _) => k !in s.streams
    case Add(k) => k in s.streams && s.streams[k].phase.Opening?
    case GiveUp(k) => k in s.streams && s.streams[k].phase.Opening?
    case End(k) => k in s.streams && s.streams[k].phase.Registered?
    case WriteOffline(k) => k in s.streams && s.streams[k].phase.Marking? && s.streams[k].attempts == 0
    case FailOffline(k) => k in s.streams && s.streams[k].phase.Marking? && s.streams[k].attempts == 0
    case Marked(k) => k in s.streams && s.streams[k].phase.Marking? && s.streams[k].attempts > 0
  }

  /** The streams once the registered one of a workload, if any, is cancelled. */
  ghost function Cancelled(s: State, w: string): map<nat, Stream> {
    if w in s.registry.live && s.registry.live[w] in s.streams then
      var prev := s.registry.live[w];
      s.streams[prev := s.streams[prev].(superseded := s.streams[prev].superseded + 1)]
    else s.streams
  }

  ghost function Do(s: State, step: Step): State
    requires Enabled(s, step)
  {
    match step
    case Arrive(k, w) => s.(streams := s.streams[k := Stream(w, Opening, false, 0, 0, 0, 0)])
    case Add(k) =>
      var t := s.streams[k];
      if t.w in s.registry.marking then s
      else State(AddTo(s.registry, t.w, k), Cancelled(s, t.w)[k := t.(phase := Registered, everRegistered := true)])
    case GiveUp(k) => s.(streams := s.streams[k := s.streams[k].(phase := Gone)])
    case End(k) =>
      var t := s.streams[k];
      if t.w in s.registry.live && s.registry.live[t.w] == k
      then State(RemoveFrom(s.registry, t.w, k), s.streams[k := t.(phase := Marking, marked := t.marked + 1)])
      else s.(streams := s.streams[k := t.(phase := Gone)])
    case WriteOffline(k) =>
      var t := s.streams[k];
      s.(streams := s.streams[k := t.(attempts := t.attempts + 1, writes := t.writes + 1)])
    case FailOffline(k) => s.(streams := s.streams[k := s.streams[k].(attempts := s.streams[k].attempts + 1)])
    case Marked(k) =>
      State(MarkedIn(s.registry, s.streams[k].w), s.streams[k := s.streams[k].(phase := Gone)])
  }

  ghost predicate GoodStream(r: Registry, k: nat, t: Stream) {
    match t.phase
    case Opening => !t.everRegistered && t.superseded == 0 && t.marked == 0 && t.attempts == 0 && t.writes == 0
    case Registered =>
      && t.everRegistered && t.marked == 0 && t.attempts == 0 && t.writes == 0 && t.superseded <= 1
      && (t.superseded == 0 <==> t.w in r.live && r.live[t.w] == k)
    case Marking =>
      && t.everRegistered && t.superseded == 0 && t.marked == 1 && t.writes <= t.attempts <= 1
      && t.w in r.marking && r.marking[t.w] == k
    case Gone =>
      && (t.everRegistered ==> t.superseded + t.marked == 1 && t.writes <= t.attempts == t.marked)
      && (!t.everRegistered ==> t.superseded == 0 && t.marked == 0 && t.attempts == 0 && t.writes == 0)
  }

  ghost predicate Valid(s: State) {
    && s.registry.live.Keys !! s.registry.marking.Keys
    && (forall w :: w in s.registry.live ==>
          var k := s.registry.live[w]; k in s.streams && s.streams[k].w == w && s.streams[k].phase.Registered?)
    && (forall w :: w in s.registry.marking ==>
          var k := s.registry.marking[w]; k in s.streams && s.streams[k].w == w && s.streams[k].phase.Marking?)
    && (forall k :: k in s.streams ==> GoodStream(s.registry, k, s.streams[k]))
  }

  /** Every step keeps the hand-off in order. */
  lemma StepValid(s: State, step: Step)
    requires Valid(s) && Enabled(s, step)
    ensures Valid(Do(s, step))
  {
    var t := Do(s, step);
    match step
    case Add(k) =>
      if s.streams[k].w !in s.registry.marking {
        AddValid(s, k);
      }
    case End(k) =>
      forall j | j in t.streams ensures GoodStream(t.registry, j, t.streams[j]) {
        assert j != k ==> GoodStream(s.registry, j, s.streams[j]);
        assert GoodStream(s.registry, k, s.streams[k]);
      }
    case Marked(k) =>
      forall j | j in t.streams ensures GoodStream(t.registry, j, t.streams[j]) {
        assert GoodStream(s.registry, j, s.streams[j]);
      }
    case Arrive(k, w) =>
    case GiveUp(k) =>
    case WriteOffline(k) =>
    case FailOffline(k) =>
  }

  lemma AddValid(s: State, k: nat)
    requires Valid(s) && Enabled(s, Add(k)) && s.streams[k].w !in s.registry.marking
    ensures Valid(Do(s, Add(k)))
  {
    var t := Do(s, Add(k));
    var w := s.streams[k].w;
    forall j | j in t.streams ensures GoodStream(t.registry, j, t.streams[j]) {
      if j != k {
        assert GoodStream(s.registry, j, s.streams[j]);
      }
    }
  }

  ghost predicate Trace(states: seq<State>, steps: seq<Step>) {
    && |states| == |steps| + 1 && states[0] == State(Registry(map[], map[]), map[])
    && forall i :: 0 <= i < |steps| ==> Enabled(states[i], steps[i]) && states[i + 1] == Do(states[i], steps[i])
  }

  lemma {:induction false} AlwaysValid(states: seq<State>, steps: seq<Step>, n: nat)
    requires Trace(states, steps) && n < |states|
    ensures Valid(states[n])
  {
    if n > 0 {
      AlwaysValid(states, steps, n - 1);
      StepValid(states[n - 1], steps[n - 1]);
    }
  }

  /** For every interleaving of streams opening, superseding and ending: no
      workload is both live and being marked; OFFLINE is written only while
      the workload has no registered stream, and never by a superseded one;
      and a stream that registered and ended was either superseded once, and
      tried to write nothing, or marked once, and tried to write once. */
  lemma HandOff(states: seq<State>, steps: seq<Step>, n: nat)
    requires Trace(states, steps) && n < |states|
    ensures states[n].registry.live.Keys !! states[n].registry.marking.Keys
    ensures n < |steps| && steps[n].WriteOffline? ==>
              var t := states[n].streams[steps[n].k];
              t.w !in states[n].registry.live && t.superseded == 0 && t.w in states[n].registry.marking
    ensures forall k ::
        k in states[n].streams && states[n].streams[k].phase.Gone? && states[n].streams[k].everRegistered ==>
              var t := states[n].streams[k];
              || (t.superseded == 1 && t.marked == 0 && t.attempts == 0 && t.writes == 0)
              || (t.superseded == 0 && t.marked == 1 && t.attempts == 1 && t.writes <= 1)
  {
    AlwaysValid(states, steps, n);
    if n < |steps| && steps[n].WriteOffline? {
      assert GoodStream(states[n].registry, steps[n].k, states[n].streams[steps[n].k]);
    }
    forall k | k in states[n].streams && states[n].streams[k].phase.Gone? && states[n].streams[k].everRegistered
      ensures var t := states[n].streams[k]; t.superseded + t.marked == 1 && t.writes <= t.attempts == t.marked
    {
      assert GoodStream(states[n].registry, k, states[n].streams[k]);
    }
  }

  /** While a stream is registered and nothing newer has registered, it is the
      one the registry finds. */
  lemma RegisteredIsFound(states: seq<State>, steps: seq<Step>, n: nat, k: nat)
    requires Trace(states, steps) && n < |states| && k in states[n].streams && states[n].streams[k].phase.Registered?
    ensures states[n].streams[k].superseded == 0 <==>
            states[n].streams[k].w in states[n].registry.live && states[n].registry.live[states[n].streams[k].w] == k
  {
    AlwaysValid(states, steps, n);
    assert GoodStream(states[n].registry, k, states[n].streams[k]);
  }

  /** In every run, a stream that finds no mark pending takes over: it is the one
      found from then on, and the one before it is superseded. A stream that ends
      while it is the registered one holds its workload for the mark. */
  lemma StreamsTakeOver(states: seq<State>, steps: seq<Step>, n: nat, k: nat)
    requires Trace(states, steps) && n < |steps|
    ensures steps[n] == Add(k) && states[n].streams[k].w !in states[n].registry.marking ==>
              var w, before, after := states[n].streams[k].w, states[n], states[n + 1];
              && w in after.registry.live && after.registry.live[w] == k && after.streams[k].phase.Registered?
              && (w in before.registry.live ==>
                    var old_ := before.registry.live[w];
                    old_ in after.streams && after.streams[old_].superseded == before.streams[old_].superseded + 1)
    ensures steps[n] == Add(k) && states[n].streams[k].w in states[n].registry.marking ==> states[n + 1] == states[n]
    ensures steps[n] == End(k) && states[n].streams[k].superseded == 0 ==>
              var w, after := states[n].streams[k].w, states[n + 1];
              w !in after.registry.live && w in after.registry.marking && after.registry.marking[w] == k
  {
    AlwaysValid(states, steps, n);
    assert Enabled(states[n], steps[n]) && states[n + 1] == Do(states[n], steps[n]);
    hide Trace;
    if steps[n] == Add(k) || steps[n] == End(k) {
      assert GoodStream(states[n].registry, k, states[n].streams[k]);
    }
  }
}
