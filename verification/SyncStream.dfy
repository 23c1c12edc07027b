/** The sync stream: what a control plane sends a workload's agent, step by
    step as its handlers interleave, and what the agent then holds. */
module SyncStream {
  import opened Wrappers
  import opened Addresses
  import opened Rendered
  import opened Deltas
  import opened Authored
  import opened Compiler
  import opened Versions
  import opened VersionHistory
  import Determined
  import Meaning

  datatype Message = Snapshot(policy: Policy) | PolicyDelta(delta: Delta)

  /** The version the agent acknowledges for a message. */
  ghost function VersionNamed(m: Message): nat {
    match m
    case Snapshot(p) => p.version
    case PolicyDelta(d) => d.to
  }

  /** What a stream's lock guards: the tip of what was sent, the version of
      the last recovery snapshot, and the messages queued so far. */
  datatype Sending = Sending(tip: Option<Policy>, recovery: nat, sent: seq<Message>)

  /** A push of a loaded policy: a delta from the tip, if it is newer. */
  ghost function PushTo(s: Sending, p: Policy): Sending {
    if s.tip.None? || p.version <= s.tip.value.version then s
    else s.(tip := Some(p), sent := s.sent + [PolicyDelta(DeltaOf(s.tip.value, p))])
  }

  /** A recovery snapshot of a loaded policy, which becomes the tip. */
  ghost function RecoverTo(s: Sending, p: Policy): Sending {
    Sending(Some(p), p.version, s.sent + [Snapshot(p)])
  }

  /** The answer to a failed acknowledgement: a recovery snapshot, unless the
      version acknowledged is not above the last recovery. */
  ghost function AckTo(s: Sending, version: nat, loaded: Policy): Sending {
    if version <= s.recovery then s else RecoverTo(s, loaded)
  }

  class Session {
    var lastSent: Option<Policy>
    var recovery: nat
    var send: seq<Message>

    constructor ()
      ensures View() == Sending(None, 0, [])
    {
      lastSent, recovery, send := None, 0, [];
    }

    ghost function View(): Sending
      reads this
    {
      Sending(lastSent, recovery, send)
    }

    method PushLatest(p: Policy)
      modifies this
      ensures View() == PushTo(old(View()), p)
    {
      if lastSent.None? || p.version <= lastSent.value.version {
        return;
      }
      var from := lastSent.value;
      var changes, _ := DiffValues(from, p);
      var delta := Delta(from.version, p.version, changes);
      lastSent := Some(p);
      send := send + [PolicyDelta(delta)];
    }

    /** Answers a failed acknowledgement with the policy loaded for it, unless
        it predates the last recovery. */
    method HandleFailedAck(version: nat, loaded: Policy)
      modifies this
      ensures View() == AckTo(old(View()), version, loaded)
    {
      if version <= recovery {
        return;
      }
      SendRecoverySnapshot(loaded);
    }

    method SendRecoverySnapshot(p: Policy)
      modifies this
      ensures View() == RecoverTo(old(View()), p)
    {
      lastSent := Some(p);
      recovery := p.version;
      send := send + [Snapshot(p)];
    }
  }

  // ----- The system -----

  /** Where a stream's opening stands: the policy is loaded before the lock is
      taken, the tip set under it, and the snapshot queued after it. */
  datatype Opening = NotLoaded | OpenLoaded(policy: Policy) | TipSet(policy: Policy) | Opened

  /** Where the answer to a failed acknowledgement stands. */
  datatype Recovering = Idle | Wanted(version: nat) | RecoveryLoaded(policy: Policy, version: nat)

  datatype Stream = Stream(sending: Sending, opening: Opening, recovering: Recovering,
                           pushes: seq<Policy>, recoveries: nat)

  /** The persisted state, every stream the workload's agent ever opened, on
      any replica, and the policy the agent holds. */
  datatype System = System(store: Store, streams: map<nat, Stream>, agent: Policy)

  /** One handler's next step. A stream that ends takes no more steps; a
      message that is lost is never delivered; a delivery that fails to
      install changes nothing and is not a step. */
  datatype Step =
    | RenderNow(inputs: Inputs)
    | Open(k: nat)
    | OpenLoad(k: nat)
    | OpenTip(k: nat)
    | OpenSend(k: nat)
    | PushLoad(k: nat)
    | PushLocked(k: nat, i: nat)
    | FailedAck(k: nat, version: nat)
    | RecoverLoad(k: nat)
    | RecoverLocked(k: nat)
    | Deliver(k: nat, i: nat)

  ghost predicate Enabled(id: string, s: System, step: Step) {
    match step
    case RenderNow(_) => true
    case Open(k) => k !in s.streams
    case OpenLoad(k) => k in s.streams && s.streams[k].opening.NotLoaded? && id in s.store.policies
    case OpenTip(k) => k in s.streams && s.streams[k].opening.OpenLoaded?
    case OpenSend(k) => k in s.streams && s.streams[k].opening.TipSet?
    case PushLoad(k) => k in s.streams && id in s.store.policies
    case PushLocked(k, i) => k in s.streams && i < |s.streams[k].pushes|
    case FailedAck(k, _) => k in s.streams && s.streams[k].opening.Opened? && s.streams[k].recovering.Idle?
    case RecoverLoad(k) => k in s.streams && s.streams[k].recovering.Wanted? && id in s.store.policies
    case RecoverLocked(k) => k in s.streams && s.streams[k].recovering.RecoveryLoaded?
    case Deliver(k, i) => k in s.streams && i < |s.streams[k].sending.sent|
  }

  /** What the agent holds after a message: a snapshot replaces, a delta is
      applied, and a delta that does not apply changes nothing. */
  ghost function Received(agent: Policy, m: Message): Policy {
    match m
    case Snapshot(p) => p
    case PolicyDelta(d) => var r := Apply(agent, d); if r.Ok? then r.value else agent
  }

  ghost function StreamStep(id: string, s: System, step: Step): Stream
    requires Enabled(id, s, step) && !step.RenderNow? && !step.Deliver?
  {
    if step.Open? then Stream(Sending(None, 0, []), NotLoaded, Idle, [], 0)
    else
      var t := s.streams[step.k];
      match step
      case OpenLoad(_) => t.(opening := OpenLoaded(s.store.policies[id]))
      case OpenTip(_) => t.(opening := TipSet(t.opening.policy), sending := t.sending.(tip := Some(t.opening.policy)))
      case OpenSend(_) =>
        t.(opening := Opened, sending := t.sending.(sent := t.sending.sent + [Snapshot(t.opening.policy)]))
      case PushLoad(_) => t.(pushes := t.pushes + [s.store.policies[id]])
      case PushLocked(_, i) =>
        t.(pushes := t.pushes[..i] + t.pushes[i + 1..], sending := PushTo(t.sending, t.pushes[i]))
      case FailedAck(_, v) => if v <= t.sending.recovery then t else t.(recovering := Wanted(v))
      case RecoverLoad(_) => t.(recovering := RecoveryLoaded(s.store.policies[id], t.recovering.version))
      case RecoverLocked(_) =>
        t.(recovering := Idle, sending := RecoverTo(t.sending, t.recovering.policy), recoveries := t.recoveries + 1)
  }

  ghost function Do(id: string, s: System, step: Step): System
    requires Enabled(id, s, step)
  {
    match step
    case RenderNow(inputs) => s.(store := RenderStep(s.store, inputs))
    case Deliver(k, i) => s.(agent := Received(s.agent, s.streams[k].sending.sent[i]))
    case _ => s.(streams := s.streams[step.k := StreamStep(id, s, step)])
  }

  ghost function Start(): System {
    System(Store(map[], map[]), map[], Empty())
  }

  /** One interleaving of the handlers: the states it passes through. */
  ghost predicate Trace(id: string, states: seq<System>, steps: seq<Step>) {
    && |states| == |steps| + 1 && states[0] == Start()
    && forall i :: 0 <= i < |steps| ==> Enabled(id, states[i], steps[i]) && states[i + 1] == Do(id, states[i], steps[i])
  }

  // ----- The agent holds what a render persisted -----

  ghost predicate Persisted(id: string, store: Store, p: Policy) {
    exists k :: 0 <= k < |Past(store, id)| && Past(store, id)[k].policy == p
  }

  ghost predicate GoodMessage(id: string, store: Store, m: Message) {
    match m
    case Snapshot(p) => Persisted(id, store, p)
    case PolicyDelta(d) => exists p, q :: Persisted(id, store, p) && Persisted(id, store, q) && d == DeltaOf(p, q)
  }

  ghost predicate GoodStream(id: string, store: Store, t: Stream) {
    && (t.sending.tip.Some? ==> Persisted(id, store, t.sending.tip.value))
    && (t.opening.OpenLoaded? || t.opening.TipSet? ==> Persisted(id, store, t.opening.policy))
    && (t.recovering.RecoveryLoaded? ==> Persisted(id, store, t.recovering.policy))
    && (forall i :: 0 <= i < |t.pushes| ==> Persisted(id, store, t.pushes[i]))
    && (forall i :: 0 <= i < |t.sending.sent| ==> GoodMessage(id, store, t.sending.sent[i]))
  }

  ghost predicate Safe(id: string, s: System) {
    && GoodAt(s.store, id)
    && (forall k :: k in s.streams ==> GoodStream(id, s.store, s.streams[k]))
    && (s.agent == Empty() || Persisted(id, s.store, s.agent))
  }

  lemma PersistedByVersion(id: string, store: Store, p: Policy)
    requires GoodAt(store, id) && Persisted(id, store, p)
    ensures 1 <= p.version <= |Past(store, id)| && p == Past(store, id)[p.version - 1].policy && IsCanonical(p)
  {
    hide Render, Equal, IsCanonical;
    var k :| 0 <= k < |Past(store, id)| && Past(store, id)[k].policy == p;
    assert GoodRendering(id, Past(store, id), k);
  }

  lemma CurrentPersisted(id: string, store: Store)
    requires GoodAt(store, id) && id in store.policies
    ensures Persisted(id, store, store.policies[id]) && store.policies[id].version == |Past(store, id)|
  {
    var h := store.history[id];
    assert Past(store, id)[|h| - 1].policy == store.policies[id];
    LastVersion(id, h);
  }

  /** Renders never take back what they persisted. */
  lemma PersistedGrows(id: string, store: Store, inputs: Inputs)
    requires GoodAt(store, id)
    ensures GoodAt(RenderStep(store, inputs), id)
    ensures Past(store, id) <= Past(RenderStep(store, inputs), id)
    ensures forall p :: Persisted(id, store, p) ==> Persisted(id, RenderStep(store, inputs), p)
  {
    hide PlanOne, RenderStep, Changes, Render, GoodPast;
    StepAt(store, inputs, id);
    StepKeepsGood(store, inputs, id);
    var t := RenderStep(store, inputs);
    forall p | Persisted(id, store, p) ensures Persisted(id, t, p) {
      var k :| 0 <= k < |Past(store, id)| && Past(store, id)[k].policy == p;
      assert Past(t, id)[k].policy == p;
    }
  }

  lemma GoodStreamGrows(id: string, store: Store, inputs: Inputs, t: Stream)
    requires GoodAt(store, id) && GoodStream(id, store, t)
    ensures GoodStream(id, RenderStep(store, inputs), t)
  {
    hide RenderStep, Persisted, GoodAt, DeltaOf;
    PersistedGrows(id, store, inputs);
    forall i | 0 <= i < |t.sending.sent| ensures GoodMessage(id, RenderStep(store, inputs), t.sending.sent[i]) {
      assert GoodMessage(id, store, t.sending.sent[i]);
    }
  }

  /** A delta between persisted versions whose base the agent holds always
      applies, and takes it to a persisted version. */
  lemma DeltaApplies(id: string, store: Store, agent: Policy, p: Policy, q: Policy)
    requires GoodAt(store, id) && Persisted(id, store, p) && Persisted(id, store, q)
    requires agent == Empty() || Persisted(id, store, agent)
    requires agent.version == p.version
    ensures Apply(agent, DeltaOf(p, q)) == Ok(q)
  {
    hide GoodAt, Persisted, Apply, DeltaOf, Canonical;
    PersistedByVersion(id, store, p);
    PersistedByVersion(id, store, q);
    if agent != Empty() {
      PersistedByVersion(id, store, agent);
    }
    assert agent == p;
    DeltaRoundTrip(agent, p, q);
    CanonicalFixed(q);
  }

  lemma MismatchRejected(agent: Policy, d: Delta)
    requires agent.version != d.from
    ensures Apply(agent, d).Err?
  {
  }

  lemma ReceivedPersisted(id: string, store: Store, agent: Policy, m: Message)
    requires GoodAt(store, id) && GoodMessage(id, store, m)
    requires agent == Empty() || Persisted(id, store, agent)
    ensures Received(agent, m) == Empty() || Persisted(id, store, Received(agent, m))
  {
    hide GoodAt, Persisted, Apply;
    if m.PolicyDelta? {
      var p, q :| Persisted(id, store, p) && Persisted(id, store, q) && m.delta == DeltaOf(p, q);
      if agent.version == p.version {
        DeltaApplies(id, store, agent, p, q);
      } else {
        MismatchRejected(agent, m.delta);
      }
    }
  }

  lemma StreamStepGood(id: string, s: System, step: Step)
    requires Safe(id, s) && Enabled(id, s, step) && !step.RenderNow? && !step.Deliver?
    ensures GoodStream(id, s.store, StreamStep(id, s, step))
  {
    hide GoodAt, Persisted, DeltaOf;
    if id in s.store.policies {
      CurrentPersisted(id, s.store);
    }
    if !step.Open? {
      var t := s.streams[step.k];
      assert GoodStream(id, s.store, t);
      if step.PushLocked? {
        PushedGood(id, s.store, t.sending, t.pushes[step.i]);
      }
    }
  }

  lemma PushedGood(id: string, store: Store, x: Sending, p: Policy)
    requires Persisted(id, store, p)
    requires x.tip.Some? ==> Persisted(id, store, x.tip.value)
    requires forall i :: 0 <= i < |x.sent| ==> GoodMessage(id, store, x.sent[i])
    ensures PushTo(x, p).tip.Some? ==> Persisted(id, store, PushTo(x, p).tip.value)
    ensures forall i :: 0 <= i < |PushTo(x, p).sent| ==> GoodMessage(id, store, PushTo(x, p).sent[i])
  {
    hide Persisted, DeltaOf;
    if x.tip.Some? {
      assert GoodMessage(id, store, PolicyDelta(DeltaOf(x.tip.value, p)));
    }
  }

  /** Every step of every handler keeps the system safe. */
  lemma StepSafe(id: string, s: System, step: Step)
    requires Safe(id, s) && Enabled(id, s, step)
    ensures Safe(id, Do(id, s, step))
  {
    hide GoodAt, Persisted, GoodMessage, RenderStep, Received;
    match step
    case RenderNow(inputs) =>
      PersistedGrows(id, s.store, inputs);
      forall k | k in s.streams ensures GoodStream(id, RenderStep(s.store, inputs), s.streams[k]) {
        GoodStreamGrows(id, s.store, inputs, s.streams[k]);
      }
    case Deliver(k, i) =>
      assert GoodStream(id, s.store, s.streams[k]);
      ReceivedPersisted(id, s.store, s.agent, s.streams[k].sending.sent[i]);
    case _ =>
      StreamStepGood(id, s, step);
  }

  lemma {:induction false} AlwaysSafe(id: string, states: seq<System>, steps: seq<Step>, n: nat)
    requires Trace(id, states, steps) && n < |states|
    ensures Safe(id, states[n])
  {
    hide Do, Enabled;
    if n == 0 {
      assert GoodAt(states[0].store, id);
    } else {
      AlwaysSafe(id, states, steps, n - 1);
      StepSafe(id, states[n - 1], steps[n - 1]);
    }
  }

  /** Whatever the interleaving of renders, pushes, recoveries and reconnects,
      and whatever messages are lost, reordered or repeated, the agent always
      holds the empty policy or exactly the policy persisted under its
      version. */
  lemma AgentHoldsPersisted(id: string, states: seq<System>, steps: seq<Step>, n: nat)
    requires Trace(id, states, steps) && n < |states|
    ensures var s := states[n];
            || (s.agent.version == 0 && s.agent.mode == Visibility && s.agent.rules == [])
            || (1 <= s.agent.version <= |Past(s.store, id)| && s.agent == Past(s.store, id)[s.agent.version - 1].policy)
  {
    hide Trace, GoodAt, Persisted;
    AlwaysSafe(id, states, steps, n);
    if states[n].agent != Empty() {
      PersistedByVersion(id, states[n].store, states[n].agent);
    }
  }

  /** A delta applies exactly when the agent holds the version it starts from:
      one whose base matches never fails, and takes the agent to the policy
      persisted under the version it names. One that does not apply leaves the
      agent what it held. */
  lemma MatchingDeltaNeverFails(id: string, states: seq<System>, steps: seq<Step>, n: nat, k: nat, i: nat)
    requires Trace(id, states, steps) && n < |states|
    requires k in states[n].streams && i < |states[n].streams[k].sending.sent|
    requires states[n].streams[k].sending.sent[i].PolicyDelta?
    ensures var d := states[n].streams[k].sending.sent[i].delta;
            && (d.from == states[n].agent.version <==> Apply(states[n].agent, d).Ok?)
            && 1 <= d.to <= |Past(states[n].store, id)|
            && Do(id, states[n], Deliver(k, i)).agent
               == if d.from == states[n].agent.version then Past(states[n].store, id)[d.to - 1].policy
                 else states[n].agent
  {
    hide Trace, GoodAt, Persisted, Apply, GoodMessage, Received;
    AlwaysSafe(id, states, steps, n);
    var s := states[n];
    assert GoodStream(id, s.store, s.streams[k]);
    DeltaReceived(id, s.store, s.agent, s.streams[k].sending.sent[i].delta);
  }

  lemma DeltaReceived(id: string, store: Store, agent: Policy, d: Delta)
    requires GoodAt(store, id) && GoodMessage(id, store, PolicyDelta(d))
    requires agent == Empty() || Persisted(id, store, agent)
    ensures d.from == agent.version <==> Apply(agent, d).Ok?
    ensures 1 <= d.to <= |Past(store, id)|
    ensures Received(agent, PolicyDelta(d)) == if d.from == agent.version then Past(store, id)[d.to - 1].policy
        else agent
  {
    hide GoodAt, Persisted, Apply, Diff;
    var p, q :| Persisted(id, store, p) && Persisted(id, store, q) && d == DeltaOf(p, q);
    PersistedByVersion(id, store, q);
    if d.from == agent.version {
      DeltaApplies(id, store, agent, p, q);
    } else {
      MismatchRejected(agent, d);
    }
  }

  // ----- End to end -----

  /** The inputs a rendering of an agent's version read say, for the workload
      that was rendered, the mode the agent holds and exactly what it permits. */
  lemma AgentEnforcesAuthored(id: string, states: seq<System>, steps: seq<Step>, n: nat)
      returns (inputs: Inputs, w: Workload)
    requires Trace(id, states, steps) && n < |states| && states[n].agent != Empty()
    requires forall k :: 0 <= k < |Past(states[n].store, id)| ==> Determined.Keyed(Past(states[n].store, id)[k].inputs)
    ensures exists k ::
        0 <= k < |Past(states[n].store, id)| && Past(states[n].store, id)[k] == Rendering(states[n].agent, inputs)
    ensures w in inputs.workloads && w.id == id && !w.retired
    ensures states[n].agent.mode == if w.mode == ModeUnspecified then Visibility else w.mode
    ensures forall src: Addr, p, port: nat ::
              Permits(states[n].agent, src, p, port)
              <==> p != ProtocolUnspecified && AuthoredPermits(inputs, LabelMap(w.labels), src, p, port)
  {
    hide Trace, Permits, AuthoredPermits, LabelMap, Render, Determined.Keyed;
    var agent, h := states[n].agent, Past(states[n].store, id);
    AlwaysSafe(id, states, steps, n);
    AgentHoldsPersisted(id, states, steps, n);
    var k := agent.version - 1;
    assert GoodRendering(id, h, k);
    inputs := h[k].inputs;
    w := RenderedFrom(inputs, id);
    KeyedParts(inputs);
    RenderKeepsMode(inputs, w);
    forall src: Addr, p, port: nat
      ensures Permits(agent, src, p, port)
              <==> p != ProtocolUnspecified && AuthoredPermits(inputs, LabelMap(w.labels), src, p, port)
    {
      KeyedParts(inputs);
      PermitsAnyVersion(Render(inputs)[id], agent.version, src, p, port);
      Meaning.RenderPreservesMeaning(inputs, w, src, p, port);
    }
  }

  lemma RenderedWorkloadMode(inputs: Inputs, w: Workload)
    ensures RenderWorkload(inputs, w).mode == RenderedMode(w.mode)
  {
  }

  lemma KeyedParts(inputs: Inputs)
    requires Determined.Keyed(inputs)
    ensures DistinctWorkloads(inputs.workloads) && DistinctRules(inputs.rulesets) && DistinctObjects(inputs)
  {
  }

  lemma PermitsAnyVersion(p: Policy, v: nat, src: Addr, protocol: Protocol, port: nat)
    ensures Permits(p.(version := v), src, protocol, port) <==> Permits(p, src, protocol, port)
  {
  }

  lemma RenderedFrom(inputs: Inputs, id: string) returns (w: Workload)
    requires Determined.Keyed(inputs) && id in Render(inputs)
    ensures w in inputs.workloads && w.id == id && !w.retired && Render(inputs)[id] == RenderWorkload(inputs, w)
  {
    hide Render, RenderWorkload;
    RenderCovers(inputs);
    w :| w in inputs.workloads && !w.retired && w.id == id;
  }

  // ----- Recovery cannot loop -----

  /** An acknowledgement of no version beyond what is persisted. */
  ghost predicate KnownAck(id: string, s: System, step: Step) {
    step.FailedAck? ==> step.version <= |Past(s.store, id)|
  }

  /** An acknowledgement of a version sent on the stream is one. */
  lemma SentAckKnown(id: string, s: System, k: nat, i: nat)
    requires Safe(id, s) && k in s.streams && i < |s.streams[k].sending.sent|
    ensures KnownAck(id, s, FailedAck(k, VersionNamed(s.streams[k].sending.sent[i])))
  {
    hide GoodAt, GoodMessage;
    assert GoodStream(id, s.store, s.streams[k]);
    SentVersion(id, s.store, s.streams[k].sending.sent[i]);
  }

  /** Every recovery so far raised the recovery version, which no persisted
      version is below; a pending one is for a version above it. */
  ghost predicate RecoveryBounded(id: string, store: Store, t: Stream) {
    var now := |Past(store, id)|;
    && t.recoveries <= t.sending.recovery <= now
    && (t.recovering.Wanted? ==> t.sending.recovery < t.recovering.version <= now)
    && (t.recovering.RecoveryLoaded? ==> t.sending.recovery < t.recovering.policy.version <= now)
  }

  lemma SentVersion(id: string, store: Store, m: Message)
    requires GoodAt(store, id) && GoodMessage(id, store, m)
    ensures VersionNamed(m) <= |Past(store, id)|
  {
    hide GoodAt, Persisted, Diff;
    match m
    case Snapshot(p) => PersistedByVersion(id, store, p);
    case PolicyDelta(d) =>
      var p, q :| Persisted(id, store, p) && Persisted(id, store, q) && d == DeltaOf(p, q);
      PersistedByVersion(id, store, q);
  }

  lemma PushKeepsRecovery(x: Sending, p: Policy)
    ensures PushTo(x, p).recovery == x.recovery
  {
  }

  lemma StepBounded(id: string, s: System, step: Step, k: nat)
    requires Safe(id, s) && Enabled(id, s, step) && KnownAck(id, s, step)
    requires k in s.streams ==> RecoveryBounded(id, s.store, s.streams[k])
    ensures k in Do(id, s, step).streams ==> RecoveryBounded(id, Do(id, s, step).store, Do(id, s, step).streams[k])
    ensures step.RecoverLocked? && step.k == k ==>
              Do(id, s, step).streams[k].sending.recovery > s.streams[k].sending.recovery
  {
    hide GoodAt, Persisted, RenderStep, PushTo, Received, GoodMessage;
    if step.RenderNow? {
      PersistedGrows(id, s.store, step.inputs);
    } else if !step.Deliver? && !step.Open? && step.k == k {
      if id in s.store.policies {
        CurrentPersisted(id, s.store);
      }
      var t := s.streams[k];
      assert GoodStream(id, s.store, t);
      if step.PushLocked? {
        PushKeepsRecovery(t.sending, t.pushes[step.i]);
      }
    }
  }

  lemma {:induction false} AlwaysBounded(id: string, states: seq<System>, steps: seq<Step>, n: nat, k: nat)
    requires Trace(id, states, steps) && n < |states|
    requires forall i :: 0 <= i < |steps| ==> KnownAck(id, states[i], steps[i])
    ensures k in states[n].streams ==> RecoveryBounded(id, states[n].store, states[n].streams[k])
  {
    hide Do, Enabled, KnownAck, RecoveryBounded;
    if n > 0 {
      AlwaysBounded(id, states, steps, n - 1, k);
      AlwaysSafe(id, states, steps, n - 1);
      StepBounded(id, states[n - 1], steps[n - 1], k);
    }
  }

  /** Recovery cannot loop: if no version beyond what is persisted is ever
      acknowledged, each recovery snapshot strictly raises the stream's recovery
      version, which never passes the persisted version, so a stream sends at
      most as many recovery snapshots as there are persisted versions. */
  lemma RecoveryCannotLoop(id: string, states: seq<System>, steps: seq<Step>, n: nat, k: nat)
    requires Trace(id, states, steps) && n < |states| && k in states[n].streams
    requires forall i :: 0 <= i < |steps| ==> KnownAck(id, states[i], steps[i])
    ensures states[n].streams[k].recoveries <= states[n].streams[k].sending.recovery <= |Past(states[n].store, id)|
    ensures n < |steps| && steps[n] == RecoverLocked(k) ==>
              states[n + 1].streams[k].sending.recovery > states[n].streams[k].sending.recovery
  {
    hide Do, Enabled, KnownAck, Safe;
    AlwaysBounded(id, states, steps, n, k);
    AlwaysSafe(id, states, steps, n);
    if n < |steps| {
      StepBounded(id, states[n], steps[n], k);
    }
  }

  // ----- What was answered stays answered -----

  /** A stream's recovery version is that of a version persisted, and a recovery
      under way is for one no older. */
  ghost predicate RecoveryRises(id: string, store: Store, t: Stream) {
    && t.sending.recovery <= |Past(store, id)|
    && (t.recovering.RecoveryLoaded? ==> t.sending.recovery <= t.recovering.policy.version <= |Past(store, id)|)
  }

  lemma StepRises(id: string, s: System, step: Step, k: nat)
    requires Safe(id, s) && Enabled(id, s, step)
    requires k in s.streams ==> RecoveryRises(id, s.store, s.streams[k])
    ensures var t := Do(id, s, step);
            && (k in t.streams ==> RecoveryRises(id, t.store, t.streams[k]))
            && (k in s.streams ==> k in t.streams && s.streams[k].sending.recovery <= t.streams[k].sending.recovery)
  {
    hide GoodAt, Persisted, RenderStep, PushTo, Received, GoodMessage;
    if step.RenderNow? {
      PersistedGrows(id, s.store, step.inputs);
    } else if !step.Deliver? && !step.Open? && step.k == k {
      if id in s.store.policies {
        CurrentPersisted(id, s.store);
      }
      if step.PushLocked? {
        PushKeepsRecovery(s.streams[k].sending, s.streams[k].pushes[step.i]);
      }
    }
  }

  lemma {:induction false} AlwaysRises(id: string, states: seq<System>, steps: seq<Step>, n: nat, k: nat)
    requires Trace(id, states, steps) && n < |states|
    ensures k in states[n].streams ==> RecoveryRises(id, states[n].store, states[n].streams[k])
  {
    hide Do, Enabled, RecoveryRises, Safe;
    if n > 0 {
      AlwaysRises(id, states, steps, n - 1, k);
      AlwaysSafe(id, states, steps, n - 1);
      StepRises(id, states[n - 1], steps[n - 1], k);
    }
  }

  lemma {:induction false} RecoveryKept(id: string, states: seq<System>, steps: seq<Step>, m: nat, n: nat, k: nat)
    requires Trace(id, states, steps) && m <= n < |states| && k in states[m].streams
    ensures k in states[n].streams && states[m].streams[k].sending.recovery <= states[n].streams[k].sending.recovery
    decreases n
  {
    hide Do, Enabled, RecoveryRises, Safe;
    if m < n {
      RecoveryKept(id, states, steps, m, n - 1, k);
      AlwaysRises(id, states, steps, n - 1, k);
      AlwaysSafe(id, states, steps, n - 1);
      StepRises(id, states[n - 1], steps[n - 1], k);
    }
  }

  /** In every run, a recovery queues one snapshot, of the policy loaded for it,
      and makes it the tip; from then on a failed acknowledgement of that version
      or an older one leaves the stream as it was, whatever happened in between,
      and one above the last recovery is to be answered. */
  lemma RecoveredStaysSilent(id: string, states: seq<System>, steps: seq<Step>, m: nat, n: nat, k: nat, version: nat)
    requires Trace(id, states, steps) && m < n < |steps|
    requires steps[m] == RecoverLocked(k) && steps[n] == FailedAck(k, version)
    ensures k in states[m].streams && k in states[m + 1].streams && states[m].streams[k].recovering.RecoveryLoaded?
    ensures var p, s, t := states[m].streams[k].recovering.policy, states[m].streams[k], states[m + 1].streams[k];
            && t.sending.sent == s.sending.sent + [Snapshot(p)] && t.sending.tip == Some(p)
            && k in states[n].streams && k in states[n + 1].streams
            && (version <= p.version ==> states[n + 1] == states[n])
            && (version > states[n].streams[k].sending.recovery ==>
              states[n + 1].streams[k].recovering == Wanted(version))
  {
    assert Enabled(id, states[m], steps[m]) && states[m + 1] == Do(id, states[m], steps[m]);
    assert Enabled(id, states[n], steps[n]) && states[n + 1] == Do(id, states[n], steps[n]);
    RecoveryKept(id, states, steps, m + 1, n, k);
    hide Trace;
    if version <= states[m].streams[k].recovering.policy.version {
      assert states[n + 1].streams == states[n].streams;
    }
  }

  /** A push brings the tip at least to the policy loaded for it, by one delta
      when that is newer and by nothing when it is not; before there is a tip it
      does nothing. */
  lemma PushCatchesUp(id: string, s: System, k: nat, i: nat)
    requires Enabled(id, s, PushLocked(k, i))
    ensures var a, b, p := s.streams[k].sending, Do(id, s, PushLocked(k, i)).streams[k].sending, s.streams[k].pushes[i];
            && (a.tip.None? || p.version <= a.tip.value.version ==> b == a)
            && (a.tip.Some? && p.version > a.tip.value.version ==>
                  && b.tip == Some(p) && |b.sent| == |a.sent| + 1 && b.sent[..|a.sent|] == a.sent
                  && b.sent[|a.sent|].PolicyDelta?
                  && b.sent[|a.sent|].delta.from == a.tip.value.version && b.sent[|a.sent|].delta.to == p.version)
  {
    hide Diff;
  }
}
