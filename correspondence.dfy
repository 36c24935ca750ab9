/** The prototype (RainbowBarExample/RainbowBarExample/WavesView.swift) and
    the library controller (RainbowBar/Classes/RainbowBar.swift) agree while
    the library runs on the prototype's emit period, palette and burst size,
    is never stopped, and no finished node is drawn again below phase 1:
    forgetting the `started` flag and the kind tag of the library's notch
    nodes gives the prototype's queue, step for step. */
module PrototypeCorrespondence {
  import opened Palette
  import Lib = RainbowBarNodes
  import LibView = RainbowBarWaves
  import Proto = ExampleWaves

  predicate AllNotch(q: seq<Lib.WaveNode>)
  {
    forall i :: 0 <= i < |q| ==> q[i].kind.Notch?
  }

  /** A library notch node as the prototype's node: the same identity,
      colour, delay and `finished` flag. */
  function Project(n: Lib.WaveNode): (r: Proto.WaveNode)
    requires n.kind.Notch?
  {
    Proto.WaveNode(n.id, n.kind.color, n.slot, n.finished)
  }

  function ProjectQueue(q: seq<Lib.WaveNode>): (r: seq<Proto.WaveNode>)
    requires AllNotch(q)
    ensures |r| == |q|
  {
    seq(|q|, i requires 0 <= i < |q| => Project(q[i]))
  }

  /** Projection keeps the delays, in seconds, for the prototype's emit period. */
  lemma ProjectKeepsDelay(n: Lib.WaveNode)
    requires n.kind.Notch?
    ensures Proto.Delay(Project(n)) == Lib.Delay(n, Proto.WaveEmitPeriod)
  {
  }

  /** While running, the library's queue holds notch nodes only. */
  lemma RunningQueueAllNotch(q: seq<Lib.WaveNode>, nextId: nat, background: Color)
    requires Lib.QueueInvariant(q, true, nextId, background)
    ensures AllNotch(q)
  {
    if |q| > 0 {
      assert !Lib.HasGradient(q);
    }
  }

  /** Both start bursts build the same nodes from the same draws. */
  lemma BurstCorresponds(firstId: nat, colors: seq<Color>)
    ensures AllNotch(Lib.Burst(firstId, colors))
    ensures ProjectQueue(Lib.Burst(firstId, colors)) == Proto.Burst(firstId, colors)
  {
  }

  /** Both lag rules drop the same node. */
  lemma LagTrimCorresponds(q: seq<Lib.WaveNode>)
    requires AllNotch(q)
    ensures AllNotch(Lib.LagTrim(q))
    ensures ProjectQueue(Lib.LagTrim(q)) == Proto.LagTrim(ProjectQueue(q))
  {
    var r := Lib.LagTrim(q);
    assert forall i :: 0 <= i < |r| ==> r[i] == q[|q| - |r| + i];
  }

  /** Both completion handlers give the same queue when the library's running
      flag is the negation of the prototype's `stop` flag. */
  lemma CompletionCorresponds(q: seq<Lib.WaveNode>, running: bool, id: nat, c: Color)
    requires AllNotch(q)
    ensures AllNotch(Lib.AfterCompletion(q, running, id, c))
    ensures ProjectQueue(Lib.AfterCompletion(q, running, id, c))
         == Proto.AfterCompletion(ProjectQueue(q), !running, id, c)
  {
    LagTrimCorresponds(q);
    var r := Lib.AfterCompletion(q, running, id, c);
    var t := Lib.LagTrim(q);
    assert forall i :: 0 <= i < |t| ==> r[i] == t[i];
  }

  /** The renderers agree on a node except when a finished node is drawn
      again below phase 1: the library's `finished` flag stays set, the
      prototype's is cleared. */
  lemma ObservedCorresponds(n: Lib.WaveNode, level: Lib.Level)
    requires n.kind.Notch?
    ensures Project(Lib.Observed(n, level)) == Proto.Observed(Project(n), level)
        <==> level == Lib.Full || !n.finished
  {
  }

  /** An observation the two renderers agree on gives the same queue. */
  lemma ObserveQueueCorresponds(q: seq<Lib.WaveNode>, i: nat, level: Lib.Level)
    requires AllNotch(q) && i < |q|
    requires level == Lib.Full || !q[i].finished
    ensures AllNotch(q[i := Lib.Observed(q[i], level)])
    ensures ProjectQueue(q[i := Lib.Observed(q[i], level)])
         == ProjectQueue(q)[i := Proto.Observed(ProjectQueue(q)[i], level)]
  {
    ObservedCorresponds(q[i], level);
  }

  /** The library controller, configured with the prototype's emit period,
      palette and burst size and running, is in the prototype's state. */
  ghost predicate Corresponds(lib: LibView.WavesView, proto: Proto.WavesView)
    reads lib, lib.colorEmitter, proto, proto.colorEmitter
  {
    && lib.Valid() && proto.Valid()
    && lib.waveEmitPeriod == Proto.WaveEmitPeriod
    && lib.waveColors == Proto.WaveColors
    && lib.visibleWavesCount == Proto.VisibleWavesCount
    && lib.animatedInnerState && !proto.stop
    && lib.nextId == proto.nextId
    && lib.colorEmitter.StartOffset(Proto.WaveColors) == proto.colorEmitter.offset
    && AllNotch(lib.waveNodes)
    && ProjectQueue(lib.waveNodes) == proto.waveNodes
  }

  /** In corresponding states, every node has the same delay, in seconds,
      in both controllers. */
  lemma CorrespondingDelays(lib: LibView.WavesView, proto: Proto.WavesView, i: nat)
    requires Corresponds(lib, proto)
    requires i < |lib.waveNodes|
    ensures i < |proto.waveNodes|
    ensures Proto.Delay(proto.waveNodes[i]) == Lib.Delay(lib.waveNodes[i], lib.waveEmitPeriod)
  {
    ProjectKeepsDelay(lib.waveNodes[i]);
  }

  /** Assigning true to the library's running flag and the prototype's
      `onAppear` lead to corresponding states from any states that agree on
      the next identity and the next draw. */
  method Start(lib: LibView.WavesView, proto: Proto.WavesView)
    requires lib.Valid() && proto.Valid() && !proto.stop
    requires lib.waveEmitPeriod == Proto.WaveEmitPeriod
    requires lib.waveColors == Proto.WaveColors && lib.visibleWavesCount == Proto.VisibleWavesCount
    requires lib.nextId == proto.nextId
    requires lib.colorEmitter.StartOffset(Proto.WaveColors) == proto.colorEmitter.offset
    modifies lib, lib.colorEmitter, proto, proto.colorEmitter
    ensures Corresponds(lib, proto)
  {
    ghost var first := lib.nextId;
    ghost var start := proto.colorEmitter.offset;
    lib.SetAnimated(true);
    proto.OnAppear();
    BurstCorresponds(first, Outputs(Proto.WaveColors, start, Proto.VisibleWavesCount));
  }

  /** A completion in both keeps them corresponding. */
  method Completion(lib: LibView.WavesView, proto: Proto.WavesView)
    requires Corresponds(lib, proto)
    modifies lib, lib.colorEmitter, proto, proto.colorEmitter
    ensures Corresponds(lib, proto)
  {
    ghost var q := lib.waveNodes;
    ghost var id := lib.nextId;
    ghost var c := lib.NextDraw();
    lib.OnWaveFinished();
    proto.OnWaveFinished();
    CompletionCorresponds(q, true, id, c);
  }

  /** An observation of the same node in both keeps them corresponding,
      unless it is a finished node drawn again below phase 1. */
  method Observation(lib: LibView.WavesView, proto: Proto.WavesView, i: nat, level: Lib.Level)
    requires Corresponds(lib, proto)
    requires i < |lib.waveNodes|
    requires level == Lib.Full || !lib.waveNodes[i].finished
    modifies lib, lib.colorEmitter, proto, proto.colorEmitter
    ensures Corresponds(lib, proto)
  {
    ghost var q := lib.waveNodes;
    ghost var id := lib.nextId;
    ghost var c := lib.NextDraw();
    ObserveQueueCorresponds(q, i, level);
    lib.Observe(i, level);
    proto.Observe(i, level);
    if level == Lib.Full {
      CompletionCorresponds(q[i := Lib.Observed(q[i], level)], true, id, c);
    }
  }
}
