/** The library's wave nodes (`WaveNode`, `NotchWaveNode`, `GradientWaveNode`
    in RainbowBar/Classes/RainbowBar.swift), the renderer's flag updates, and
    the queue transformations the controller applies to a sequence of them. */
module RainbowBarNodes {
  import opened Palette

  /** The two subclasses of `WaveNode`, as a tag. */
  datatype Kind =
    | Notch(color: Color)
    | Gradient(frontColor: Color, backColor: Color)

  /** One animated segment. Its delay is `slot` emit periods (the source
      stores the product, in seconds); `started` and `finished` are the only
      fields the renderer changes. */
  datatype WaveNode = WaveNode(id: nat, kind: Kind, slot: nat, started: bool, finished: bool)

  /** The node's `delay`, in seconds, for a given emit period. */
  function Delay(n: WaveNode, waveEmitPeriod: real): (r: real)
    ensures n.slot == 0 ==> r == 0.0
    ensures waveEmitPeriod >= 0.0 ==> r >= 0.0
  {
    waveEmitPeriod * (n.slot as real)
  }

  /** `==` on nodes compares identities only. */
  predicate SameNode(a: WaveNode, b: WaveNode)
  {
    a.id == b.id
  }

  /** How far the renderer has animated a node's phase: 0, strictly between
      0 and 1, or 1. */
  datatype Level = Zero | Partial | Full

  /** The flag updates the renderer makes on the node it draws: a notch node is
      marked started once its phase is above 0 and finished once it reaches
      1; a gradient node only signals completion and is never marked. */
  function Observed(n: WaveNode, level: Level): (r: WaveNode)
    ensures r.id == n.id && r.kind == n.kind && r.slot == n.slot
    ensures n.started ==> r.started
    ensures n.finished ==> r.finished
    ensures (n.finished ==> n.started) ==> (r.finished ==> r.started)
    ensures n.kind.Gradient? ==> r == n
    ensures n.kind.Notch? ==> (r.started <==> n.started || level != Zero)
    ensures n.kind.Notch? ==> (r.finished <==> n.finished || level == Full)
  {
    match n.kind
    case Notch(_) =>
      var started := n.started || level != Zero;
      n.(started := started, finished := n.finished || level == Full)
    case Gradient(_, _) => n
  }

  // ---------------------------------------------------------------------------
  // Queue invariants

  predicate IdsIncreasing(q: seq<WaveNode>)
  {
    forall i, j :: 0 <= i < j < |q| ==> q[i].id < q[j].id
  }

  predicate IdsBelow(q: seq<WaveNode>, bound: nat)
  {
    forall i :: 0 <= i < |q| ==> q[i].id < bound
  }

  predicate HasGradient(q: seq<WaveNode>)
  {
    |q| > 0 && q[|q| - 1].kind.Gradient?
  }

  /** Every node but the last is a notch node. */
  predicate GradientOnlyLast(q: seq<WaveNode>)
  {
    forall i :: 0 <= i < |q| - 1 ==> q[i].kind.Notch?
  }

  /** A finished node has started, and a gradient node carries neither flag. */
  predicate FlagsConsistent(q: seq<WaveNode>)
  {
    forall i :: 0 <= i < |q| ==>
      (q[i].finished ==> q[i].started) && (q[i].kind.Gradient? ==> !q[i].started && !q[i].finished)
  }

  /** A trailing gradient fades from the started notch node just in front of
      it to the background colour, with no delay. */
  predicate GradientCapsStartedNotch(q: seq<WaveNode>, background: Color)
  {
    HasGradient(q) ==>
      && |q| >= 2
      && q[|q| - 2].started
      && q[|q| - 2].kind == Notch(q[|q| - 1].kind.frontColor)
      && q[|q| - 1].kind.backColor == background
      && q[|q| - 1].slot == 0
  }

  /** What holds of the queue between any two entry points of the controller:
      identities are unique (increasing from oldest to newest) and below the
      next fresh one, at most one gradient node exists and it is the last,
      the flags are consistent, and no gradient exists while running. */
  predicate QueueInvariant(q: seq<WaveNode>, running: bool, nextId: nat, background: Color)
  {
    && IdsIncreasing(q)
    && IdsBelow(q, nextId)
    && GradientOnlyLast(q)
    && FlagsConsistent(q)
    && GradientCapsStartedNotch(q, background)
    && (running ==> !HasGradient(q))
  }

  /** Identity is position: in a queue with increasing identities, two
      entries are `==` exactly when they are the same entry. */
  lemma IdentityIsPosition(q: seq<WaveNode>, i: nat, j: nat)
    requires IdsIncreasing(q)
    requires i < |q| && j < |q|
    ensures SameNode(q[i], q[j]) <==> i == j
  {
    if i < j {
      assert q[i].id < q[j].id;
    } else if j < i {
      assert q[j].id < q[i].id;
    }
  }

  /** The gradient node is unique: any two gradient nodes in an invariant queue
      are both its last element. */
  lemma AtMostOneGradient(q: seq<WaveNode>, i: nat, j: nat)
    requires GradientOnlyLast(q)
    requires i < |q| && j < |q|
    requires q[i].kind.Gradient? && q[j].kind.Gradient?
    ensures i == j == |q| - 1
  {
  }

  // ---------------------------------------------------------------------------
  // Queue transformations

  /** The start burst: one fresh notch node per colour, node `i` delayed by
      `i` emit periods. */
  function Burst(firstId: nat, colors: seq<Color>): (r: seq<WaveNode>)
    ensures |r| == |colors|
    ensures forall i :: 0 <= i < |r| ==>
      r[i].kind == Notch(colors[i]) && r[i].slot == i && !r[i].started && !r[i].finished
  {
    seq(|colors|, i requires 0 <= i < |colors| =>
      WaveNode(firstId + i, Notch(colors[i]), i, false, false))
  }

  /** One more colour adds one more node, delayed by one more period. */
  lemma BurstSnoc(firstId: nat, colors: seq<Color>, c: Color)
    ensures Burst(firstId, colors + [c])
         == Burst(firstId, colors) + [WaveNode(firstId + |colors|, Notch(c), |colors|, false, false)]
  {
    var longer := Burst(firstId, colors + [c]);
    var extended := Burst(firstId, colors) + [WaveNode(firstId + |colors|, Notch(c), |colors|, false, false)];
    forall i | 0 <= i < |longer| ensures longer[i] == extended[i] {
      if i < |colors| {
        assert (colors + [c])[i] == colors[i];
      }
    }
  }

  /** `removeAll { !$0.started }`: the started nodes, oldest first. */
  function KeepStarted(q: seq<WaveNode>): (r: seq<WaveNode>)
    ensures |r| <= |q|
    ensures forall n :: n in r <==> n in q && n.started
  {
    if q == [] then []
    else
      assert q == [q[0]] + q[1..];
      if q[0].started then [q[0]] + KeepStarted(q[1..]) else KeepStarted(q[1..])
  }

  /** Removing nodes keeps the survivors in their original order. */
  lemma {:induction false} KeepStartedInOrder(q: seq<WaveNode>)
    requires IdsIncreasing(q)
    ensures IdsIncreasing(KeepStarted(q))
  {
    if q != [] {
      var rest := KeepStarted(q[1..]);
      KeepStartedInOrder(q[1..]);
      if q[0].started {
        forall n | n in rest ensures q[0].id < n.id {
          var k :| 0 <= k < |q[1..]| && q[1..][k] == n;
          assert q[k + 1] == n;
        }
        assert forall k :: 0 <= k < |rest| ==> rest[k] in rest;
      }
    }
  }

  /** The stop branch: the started nodes, capped by a gradient from the last
      survivor's colour to the background when that survivor is a notch node. */
  function StopQueue(q: seq<WaveNode>, background: Color, id: nat): (r: seq<WaveNode>)
    ensures |KeepStarted(q)| <= |r| <= |KeepStarted(q)| + 1
    ensures r[..|KeepStarted(q)|] == KeepStarted(q)
    ensures |r| == |KeepStarted(q)| + 1 <==>
      KeepStarted(q) != [] && KeepStarted(q)[|KeepStarted(q)| - 1].kind.Notch?
    ensures |r| == |KeepStarted(q)| + 1 ==>
      r[|r| - 1] == WaveNode(id, Gradient(KeepStarted(q)[|KeepStarted(q)| - 1].kind.color, background), 0, false, false)
  {
    var kept := KeepStarted(q);
    if |kept| > 0 && kept[|kept| - 1].kind.Notch? then
      kept + [WaveNode(id, Gradient(kept[|kept| - 1].kind.color, background), 0, false, false)]
    else kept
  }

  /** The lag rule: drop the oldest node once the second-oldest has finished. */
  function LagTrim(q: seq<WaveNode>): (r: seq<WaveNode>)
    ensures |q| - 1 <= |r| <= |q|
    ensures r == q[|q| - |r|..]
    ensures |r| < |q| <==> |q| > 1 && q[1].finished
    ensures q != [] ==> r != []
  {
    if |q| > 1 && q[1].finished then q[1..] else q
  }

  /** The completion handler: the lag rule, then one fresh notch node with no
      delay at the back when running. */
  function AfterCompletion(q: seq<WaveNode>, running: bool, id: nat, c: Color): (r: seq<WaveNode>)
    ensures |r| == |LagTrim(q)| + if running then 1 else 0
    ensures running ==> |q| <= |r| <= |q| + 1
    ensures running ==> r[|r| - 1] == WaveNode(id, Notch(c), 0, false, false)
    ensures !running ==> |r| <= |q|
    ensures r[..|LagTrim(q)|] == LagTrim(q)
  {
    LagTrim(q) + if running then [WaveNode(id, Notch(c), 0, false, false)] else []
  }

  // ---------------------------------------------------------------------------
  // Each transformation keeps the invariant

  /** The burst is a valid running queue: it holds notch nodes only. */
  lemma BurstInvariant(firstId: nat, colors: seq<Color>, background: Color)
    ensures QueueInvariant(Burst(firstId, colors), true, firstId + |colors|, background)
    ensures forall i :: 0 <= i < |colors| ==> Burst(firstId, colors)[i].kind == Notch(colors[i])
  {
  }

  /** Survivors of the stop filter form a stopped queue of started notch nodes. */
  lemma SurvivorsInvariant(q: seq<WaveNode>, running: bool, nextId: nat, background: Color)
    requires QueueInvariant(q, running, nextId, background)
    ensures QueueInvariant(KeepStarted(q), false, nextId, background)
    ensures forall i :: 0 <= i < |KeepStarted(q)| ==>
      KeepStarted(q)[i].kind.Notch? && KeepStarted(q)[i].started
  {
    var kept := KeepStarted(q);
    KeepStartedInOrder(q);
    forall i | 0 <= i < |kept|
      ensures kept[i].kind.Notch? && kept[i].started && kept[i].id < nextId
      ensures kept[i].finished ==> kept[i].started
    {
      assert kept[i] in kept;
      var k :| 0 <= k < |q| && q[k] == kept[i];
    }
  }

  /** Capping a non-empty queue of started notch nodes with a gradient after
      its last node gives a valid stopped queue. */
  lemma CapInvariant(kept: seq<WaveNode>, nextId: nat, background: Color)
    requires QueueInvariant(kept, false, nextId, background)
    requires kept != []
    requires forall i :: 0 <= i < |kept| ==> kept[i].kind.Notch? && kept[i].started
    ensures QueueInvariant(
      kept + [WaveNode(nextId, Gradient(kept[|kept| - 1].kind.color, background), 0, false, false)],
      false, nextId + 1, background)
  {
    var g := WaveNode(nextId, Gradient(kept[|kept| - 1].kind.color, background), 0, false, false);
    var r := kept + [g];
    assert forall i :: 0 <= i < |kept| ==> r[i] == kept[i];
  }

  /** The stop branch keeps exactly the started nodes and appends nothing but
      the gradient. */
  lemma StopKeepsStartedNodes(q: seq<WaveNode>, running: bool, nextId: nat, background: Color)
    requires QueueInvariant(q, running, nextId, background)
    ensures forall n :: n in StopQueue(q, background, nextId) && n.kind.Notch? <==> n in q && n.started
    ensures HasGradient(StopQueue(q, background, nextId)) <==> KeepStarted(q) != []
  {
    var kept := KeepStarted(q);
    var r := StopQueue(q, background, nextId);
    SurvivorsInvariant(q, running, nextId, background);
    if kept != [] {
      assert r == kept + [r[|r| - 1]];
      forall n | n in r && n.kind.Notch? ensures n in kept {
        var k :| 0 <= k < |r| && r[k] == n;
        if k < |kept| {
          assert kept[k] == n;
        }
      }
    }
  }

  /** The stop branch empties the queue exactly when no node had started. */
  lemma StopEmptiesOnlyUnstarted(q: seq<WaveNode>, background: Color, nextId: nat)
    ensures StopQueue(q, background, nextId) == [] <==> forall i :: 0 <= i < |q| ==> !q[i].started
  {
    var kept := KeepStarted(q);
    if forall i :: 0 <= i < |q| ==> !q[i].started {
      if kept != [] {
        assert kept[0] in q;
      }
    } else {
      var i :| 0 <= i < |q| && q[i].started;
      assert q[i] in kept;
    }
  }

  /** Graceful stop: the survivors are exactly the started nodes; a gradient
      is appended exactly when some node survives; the result is a valid
      stopped queue; and nothing remains when no node had started. */
  lemma GracefulStop(q: seq<WaveNode>, running: bool, nextId: nat, background: Color)
    requires QueueInvariant(q, running, nextId, background)
    ensures QueueInvariant(StopQueue(q, background, nextId), false, nextId + 1, background)
    ensures forall n :: n in StopQueue(q, background, nextId) && n.kind.Notch? <==> n in q && n.started
    ensures HasGradient(StopQueue(q, background, nextId)) <==> KeepStarted(q) != []
    ensures StopQueue(q, background, nextId) == [] <==> forall i :: 0 <= i < |q| ==> !q[i].started
  {
    var kept := KeepStarted(q);
    SurvivorsInvariant(q, running, nextId, background);
    if kept != [] {
      CapInvariant(kept, nextId, background);
    } else {
      assert IdsBelow(kept, nextId + 1);
    }
    StopKeepsStartedNodes(q, running, nextId, background);
    StopEmptiesOnlyUnstarted(q, background, nextId);
  }

  /** A repeated stop replaces the trailing gradient by a fresh one instead of
      draining the queue: the old gradient never started, so it is dropped,
      and the started notch node in front of it survives. */
  lemma RepeatedStopRecaps(q: seq<WaveNode>, nextId: nat, background: Color)
    requires QueueInvariant(q, false, nextId, background)
    requires HasGradient(q)
    ensures q[|q| - 1] !in StopQueue(q, background, nextId)
    ensures HasGradient(StopQueue(q, background, nextId))
    ensures |StopQueue(q, background, nextId)| >= 2
  {
    GracefulStop(q, false, nextId, background);
    assert q[|q| - 2] in KeepStarted(q);
    var kept := KeepStarted(q);
    var r := StopQueue(q, background, nextId);
    assert r == kept + [r[|r| - 1]];
    assert q[|q| - 1] !in kept;
    assert r[|r| - 1].id == nextId > q[|q| - 1].id;
  }

  /** The lag rule keeps the invariant, and never removes the node in front
      of a trailing gradient, so a stopped queue with a gradient keeps it and
      never drains below two nodes. */
  lemma LagTrimInvariant(q: seq<WaveNode>, running: bool, nextId: nat, background: Color)
    requires QueueInvariant(q, running, nextId, background)
    ensures QueueInvariant(LagTrim(q), running, nextId, background)
    ensures HasGradient(q) ==> HasGradient(LagTrim(q)) && |LagTrim(q)| >= 2
  {
    var r := LagTrim(q);
    if |r| < |q| && HasGradient(q) {
      assert q[|q| - 1].kind.Gradient? && !q[|q| - 1].finished;
      assert |q| > 2;
      assert r[|r| - 2] == q[|q| - 2];
    }
    assert forall i :: 0 <= i < |r| ==> r[i] == q[|q| - |r| + i];
  }

  /** Appending a fresh notch node keeps a running queue valid. */
  lemma AppendNotchInvariant(q: seq<WaveNode>, nextId: nat, background: Color, c: Color)
    requires QueueInvariant(q, true, nextId, background)
    ensures QueueInvariant(q + [WaveNode(nextId, Notch(c), 0, false, false)], true, nextId + 1, background)
  {
    var r := q + [WaveNode(nextId, Notch(c), 0, false, false)];
    assert forall i :: 0 <= i < |q| ==> r[i] == q[i];
  }

  /** The completion handler keeps the invariant. */
  lemma CompletionInvariant(q: seq<WaveNode>, running: bool, nextId: nat, background: Color, c: Color)
    requires QueueInvariant(q, running, nextId, background)
    ensures QueueInvariant(AfterCompletion(q, running, nextId, c), running,
                           if running then nextId + 1 else nextId, background)
  {
    LagTrimInvariant(q, running, nextId, background);
    if running {
      AppendNotchInvariant(LagTrim(q), nextId, background, c);
    } else {
      assert AfterCompletion(q, running, nextId, c) == LagTrim(q);
    }
  }

  /** A renderer observation keeps the invariant. */
  lemma ObserveInvariant(q: seq<WaveNode>, i: nat, level: Level, running: bool, nextId: nat, background: Color)
    requires QueueInvariant(q, running, nextId, background)
    requires i < |q|
    ensures QueueInvariant(q[i := Observed(q[i], level)], running, nextId, background)
  {
  }

  // ---------------------------------------------------------------------------
  // The stopped queue does not drain

  /** What can reach a stopped controller: a completion signal (also one sent
      by a view whose node has already left the queue), or the renderer
      drawing node `i` at some phase, which at Full also signals completion. */
  datatype Event = Completion | Observation(i: nat, level: Level)

  /** The queue after one event while stopped; an observation of a position
      the queue no longer has changes nothing. */
  function StoppedStep(q: seq<WaveNode>, e: Event): (r: seq<WaveNode>)
    ensures |q| - 1 <= |r| <= |q|
  {
    match e
    case Completion => LagTrim(q)
    case Observation(i, level) =>
      if i < |q| then
        var seen := q[i := Observed(q[i], level)];
        if level == Full then LagTrim(seen) else seen
      else q
  }

  /** The queue after a sequence of events while stopped: it loses at most one
      node per event and never grows. */
  function StoppedRun(q: seq<WaveNode>, events: seq<Event>): (r: seq<WaveNode>)
    ensures |q| - |events| <= |r| <= |q|
    decreases |events|
  {
    if events == [] then q else StoppedRun(StoppedStep(q, events[0]), events[1..])
  }

  /** A stopped queue that is valid, holds at least two nodes, ends with the
      gradient node `g`, and has the node with identity `frontId` in front of
      it. */
  predicate CappedBy(q: seq<WaveNode>, nextId: nat, background: Color, g: WaveNode, frontId: nat)
  {
    && QueueInvariant(q, false, nextId, background)
    && |q| >= 2 && q[|q| - 1] == g && g.kind.Gradient?
    && q[|q| - 2].id == frontId
  }

  /** A completion keeps a stopped queue capped by the same gradient node,
      with the same node in front of it. */
  lemma CompletionKeepsCap(q: seq<WaveNode>, nextId: nat, background: Color, g: WaveNode, frontId: nat)
    requires CappedBy(q, nextId, background, g, frontId)
    ensures CappedBy(LagTrim(q), nextId, background, g, frontId)
  {
    LagTrimInvariant(q, false, nextId, background);
    var r := LagTrim(q);
    assert r[|r| - 2] == q[|q| - 2];
  }

  /** An observation keeps a stopped queue capped by the same gradient node,
      with the same node in front of it. */
  lemma ObservationKeepsCap(q: seq<WaveNode>, nextId: nat, background: Color, g: WaveNode, frontId: nat, i: nat, level: Level)
    requires CappedBy(q, nextId, background, g, frontId)
    requires i < |q|
    ensures CappedBy(q[i := Observed(q[i], level)], nextId, background, g, frontId)
  {
    ObserveInvariant(q, i, level, false, nextId, background);
  }

  /** One event keeps a stopped queue capped by the same gradient node, with
      the same node in front of it. */
  lemma StoppedStepKeepsCap(q: seq<WaveNode>, nextId: nat, background: Color, g: WaveNode, frontId: nat, e: Event)
    requires CappedBy(q, nextId, background, g, frontId)
    ensures CappedBy(StoppedStep(q, e), nextId, background, g, frontId)
  {
    match e
    case Completion =>
      CompletionKeepsCap(q, nextId, background, g, frontId);
    case Observation(i, level) =>
      if i < |q| {
        ObservationKeepsCap(q, nextId, background, g, frontId, i, level);
        if level == Full {
          CompletionKeepsCap(q[i := Observed(q[i], level)], nextId, background, g, frontId);
        }
      }
  }

  /** After a stop that left a gradient, no sequence of completions and
      observations drains the queue: the gradient is never marked finished,
      so the started notch node in front of it is never dropped, and the
      queue keeps these same two nodes, last, for good. */
  lemma {:induction false} StoppedQueueNeverDrains(q: seq<WaveNode>, nextId: nat, background: Color, events: seq<Event>)
    requires QueueInvariant(q, false, nextId, background) && HasGradient(q)
    ensures |q| >= 2
    ensures CappedBy(StoppedRun(q, events), nextId, background, q[|q| - 1], q[|q| - 2].id)
    decreases |events|
  {
    assert CappedBy(q, nextId, background, q[|q| - 1], q[|q| - 2].id);
    if events != [] {
      StoppedStepKeepsCap(q, nextId, background, q[|q| - 1], q[|q| - 2].id, events[0]);
      var next := StoppedStep(q, events[0]);
      StoppedQueueNeverDrains(next, nextId, background, events[1..]);
      assert next[|next| - 1] == q[|q| - 1];
      assert next[|next| - 2].id == q[|q| - 2].id;
    }
  }
}
