/** The earlier prototype of the wave queue
    (RainbowBarExample/RainbowBarExample/WavesView.swift): a fixed palette,
    notch nodes only, a start burst when the view appears, and a `stop` flag
    that a tap sets for good. */
module ExampleWaves {
  import opened Palette
  import Nodes = RainbowBarNodes

  /** The prototype's file-level constants. */
  const WaveEmitPeriod: real := 0.66
  const VisibleWavesCount: nat := 3
  const WaveColors: seq<Color> := [Red, Green, Blue]

  /** The prototype's colour selector: the palette is fixed, so there is no
      reference copy to compare against and nothing to reset. */
  class ColorEmitter {
    var colors: seq<Color>
    /** How far `colors` has turned away from `WaveColors`. */
    ghost var offset: nat

    ghost predicate Valid()
      reads this
    {
      offset < |WaveColors| && colors == Rotate(WaveColors, offset)
    }

    constructor ()
      ensures Valid() && offset == 0
    {
      colors := WaveColors;
      offset := 0;
      assert Rotate(WaveColors, 0) == WaveColors;
    }

    /** `getColor()`: the head of the ring goes to its back and is returned;
        the ring keeps its three colours. */
    method GetColor() returns (c: Color)
      requires Valid()
      modifies this
      ensures Valid()
      ensures c == WaveColors[old(offset)]
      ensures offset == (old(offset) + 1) % |WaveColors|
      ensures |colors| == |WaveColors|
    {
      RotateHeadToBack(WaveColors, offset);
      c := colors[0];
      colors := colors[1..];
      colors := colors + [c];
      offset := (offset + 1) % |WaveColors|;
    }
  }

  /** Successive draws from a fresh emitter: red, green, blue, then red again. */
  lemma DrawOrder()
    ensures Outputs(WaveColors, 0, 4) == [Red, Green, Blue, Red]
  {
    FairRoundRobin(WaveColors);
  }

  /** The prototype's node: a colour, a delay of `slot` emit periods, and the
      one flag the renderer sets. */
  datatype WaveNode = WaveNode(id: nat, color: Color, slot: nat, finished: bool)

  /** The node's `delay`, in seconds. */
  function Delay(n: WaveNode): (r: real)
    ensures n.slot == 0 ==> r == 0.0
    ensures r >= 0.0
  {
    WaveEmitPeriod * (n.slot as real)
  }

  /** The renderer's flag update: `finished` is overwritten on every frame
      with whether the phase has reached 1, so it can also be cleared. */
  function Observed(n: WaveNode, level: Nodes.Level): (r: WaveNode)
    ensures r.id == n.id && r.color == n.color && r.slot == n.slot
    ensures r.finished <==> level == Nodes.Full
  {
    n.(finished := level == Nodes.Full)
  }

  /** The invariants and queue rules below (`IdsIncreasing`, `IdsBelow`,
      `LagTrim`, `AfterCompletion`, `StoppedStep`, `StoppedRun`) have the
      library's shape (RainbowBarNodes), restated over the prototype's own
      node type. */
  predicate IdsIncreasing(q: seq<WaveNode>)
  {
    forall i, j :: 0 <= i < j < |q| ==> q[i].id < q[j].id
  }

  predicate IdsBelow(q: seq<WaveNode>, bound: nat)
  {
    forall i :: 0 <= i < |q| ==> q[i].id < bound
  }

  /** The `onAppear` burst: one fresh node per colour, node `i` delayed by
      `i` emit periods. */
  function Burst(firstId: nat, colors: seq<Color>): (r: seq<WaveNode>)
    ensures |r| == |colors|
    ensures forall i :: 0 <= i < |r| ==> r[i].color == colors[i] && r[i].slot == i && !r[i].finished
  {
    seq(|colors|, i requires 0 <= i < |colors| => WaveNode(firstId + i, colors[i], i, false))
  }

  /** The burst holds one node per draw, in draw order, with unique identities. */
  lemma BurstShape(firstId: nat, colors: seq<Color>)
    ensures |Burst(firstId, colors)| == |colors|
    ensures forall i :: 0 <= i < |colors| ==>
      Burst(firstId, colors)[i].color == colors[i] && Delay(Burst(firstId, colors)[i]) == WaveEmitPeriod * (i as real)
    ensures IdsIncreasing(Burst(firstId, colors)) && IdsBelow(Burst(firstId, colors), firstId + |colors|)
  {
  }

  /** The lag rule: drop the oldest node once the second-oldest has finished. */
  function LagTrim(q: seq<WaveNode>): (r: seq<WaveNode>)
    ensures |q| - 1 <= |r| <= |q|
    ensures r == q[|q| - |r|..]
    ensures |r| < |q| <==> |q| > 1 && q[1].finished
    ensures q != [] ==> r != []
  {
    if |q| > 1 && q[1].finished then q[1..] else q
  }

  /** The completion handler: the lag rule, then, unless stopped, one fresh
      node with no delay at the back. */
  function AfterCompletion(q: seq<WaveNode>, stop: bool, id: nat, c: Color): (r: seq<WaveNode>)
    ensures |r| == |LagTrim(q)| + if stop then 0 else 1
    ensures !stop ==> r[|r| - 1] == WaveNode(id, c, 0, false)
    ensures stop ==> r == LagTrim(q) && |r| <= |q|
    ensures r[..|LagTrim(q)|] == LagTrim(q)
  {
    LagTrim(q) + if stop then [] else [WaveNode(id, c, 0, false)]
  }

  /** The completion handler keeps the identities unique and below the next
      fresh one. */
  lemma CompletionInvariant(q: seq<WaveNode>, stop: bool, nextId: nat, c: Color)
    requires IdsIncreasing(q) && IdsBelow(q, nextId)
    ensures IdsIncreasing(AfterCompletion(q, stop, nextId, c))
    ensures IdsBelow(AfterCompletion(q, stop, nextId, c), if stop then nextId else nextId + 1)
  {
    var t := LagTrim(q);
    assert forall i :: 0 <= i < |t| ==> t[i] == q[|q| - |t| + i];
  }

  /** A node with its flag cleared: all of a node a stopped queue keeps
      unchanged, since the renderer overwrites `finished`. */
  function Unflagged(n: WaveNode): (r: WaveNode)
  {
    n.(finished := false)
  }

  /** `r` is a suffix of `q`, node for node, up to the `finished` flags. */
  predicate SuffixUpToFlags(r: seq<WaveNode>, q: seq<WaveNode>)
  {
    |r| <= |q| && forall j :: 0 <= j < |r| ==> Unflagged(r[j]) == Unflagged(q[|q| - |r| + j])
  }

  lemma SuffixUpToFlagsTrans(r: seq<WaveNode>, t: seq<WaveNode>, q: seq<WaveNode>)
    requires SuffixUpToFlags(r, t) && SuffixUpToFlags(t, q)
    ensures SuffixUpToFlags(r, q)
  {
    forall j | 0 <= j < |r| ensures Unflagged(r[j]) == Unflagged(q[|q| - |r| + j]) {
      var k := |t| - |r| + j;
      assert Unflagged(r[j]) == Unflagged(t[k]);
      assert Unflagged(t[k]) == Unflagged(q[|q| - |t| + k]);
    }
  }

  /** The queue after one event once `stop` is set: a completion is the lag
      rule alone; drawing node `i` overwrites its flag and, at Full, also
      signals completion; a draw of a position the queue no longer has
      changes nothing. */
  function StoppedStep(q: seq<WaveNode>, e: Nodes.Event): (r: seq<WaveNode>)
    ensures |q| - 1 <= |r| <= |q|
    ensures q != [] ==> r != []
  {
    match e
    case Completion => LagTrim(q)
    case Observation(i, level) =>
      if i < |q| then
        var seen := q[i := Observed(q[i], level)];
        if level == Nodes.Full then LagTrim(seen) else seen
      else q
  }

  lemma LagTrimIsSuffix(q: seq<WaveNode>)
    ensures SuffixUpToFlags(LagTrim(q), q)
  {
    var r := LagTrim(q);
    assert forall j :: 0 <= j < |r| ==> r[j] == q[|q| - |r| + j];
  }

  lemma ObservedIsSuffix(q: seq<WaveNode>, i: nat, level: Nodes.Level)
    requires i < |q|
    ensures SuffixUpToFlags(q[i := Observed(q[i], level)], q)
  {
    var seen := q[i := Observed(q[i], level)];
    assert forall j :: 0 <= j < |q| ==> Unflagged(seen[j]) == Unflagged(q[j]);
  }

  /** One event after the tap leaves a suffix of the queue up to the flags. */
  lemma StoppedStepIsSuffix(q: seq<WaveNode>, e: Nodes.Event)
    ensures SuffixUpToFlags(StoppedStep(q, e), q)
  {
    match e
    case Completion =>
      LagTrimIsSuffix(q);
    case Observation(i, level) =>
      if i < |q| {
        var seen := q[i := Observed(q[i], level)];
        ObservedIsSuffix(q, i, level);
        if level == Nodes.Full {
          LagTrimIsSuffix(seen);
          SuffixUpToFlagsTrans(LagTrim(seen), seen, q);
        }
      } else {
        assert SuffixUpToFlags(q, q);
      }
  }

  /** The queue after a sequence of events once `stop` is set. */
  function StoppedRun(q: seq<WaveNode>, events: seq<Nodes.Event>): (r: seq<WaveNode>)
    decreases |events|
  {
    if events == [] then q else StoppedRun(StoppedStep(q, events[0]), events[1..])
  }

  /** Stop is permanent: from the tap on, whatever completions and renderer
      draws arrive, no node is appended and at most the oldest node goes per
      event, so the queue stays a suffix of what it was (up to the flags),
      never grows, and never drains to empty. */
  lemma {:induction false} StoppedQueueShrinks(q: seq<WaveNode>, events: seq<Nodes.Event>)
    ensures |q| - |events| <= |StoppedRun(q, events)| <= |q|
    ensures SuffixUpToFlags(StoppedRun(q, events), q)
    ensures q != [] ==> StoppedRun(q, events) != []
    decreases |events|
  {
    if events == [] {
      assert SuffixUpToFlags(q, q);
    } else {
      var t := StoppedStep(q, events[0]);
      StoppedStepIsSuffix(q, events[0]);
      StoppedQueueShrinks(t, events[1..]);
      SuffixUpToFlagsTrans(StoppedRun(t, events[1..]), t, q);
    }
  }

  /** The prototype's `WavesView` state: the `stop` flag, the emitter and the
      queue. */
  class WavesView {
    var stop: bool
    const colorEmitter: ColorEmitter
    var waveNodes: seq<WaveNode>
    /** The identity the next node created receives (the source draws a UUID). */
    var nextId: nat

    ghost predicate Valid()
      reads this, colorEmitter
    {
      colorEmitter.Valid() && IdsIncreasing(waveNodes) && IdsBelow(waveNodes, nextId)
    }

    /** The colour the emitter hands out on its next draw. */
    ghost function NextDraw(): (r: Color)
      reads this, colorEmitter
      requires colorEmitter.Valid()
    {
      WaveColors[colorEmitter.offset]
    }

    constructor ()
      ensures Valid() && fresh(colorEmitter)
      ensures !stop && waveNodes == [] && nextId == 0 && colorEmitter.offset == 0
    {
      stop := false;
      colorEmitter := new ColorEmitter();
      waveNodes := [];
      nextId := 0;
    }

    /** `onAppear`: the queue becomes `VisibleWavesCount` fresh nodes, node `i`
        delayed by `i` emit periods and coloured by the emitter's `i`-th
        successive draw. */
    method OnAppear()
      requires Valid()
      modifies this`waveNodes, this`nextId, colorEmitter
      ensures Valid()
      ensures waveNodes == Burst(old(nextId), Outputs(WaveColors, old(colorEmitter.offset), VisibleWavesCount))
      ensures nextId == old(nextId) + VisibleWavesCount
      ensures colorEmitter.offset == (old(colorEmitter.offset) + VisibleWavesCount) % |WaveColors|
      ensures stop == old(stop)
    {
      ghost var first := nextId;
      ghost var start := colorEmitter.offset;
      ghost var draws := Outputs(WaveColors, start, VisibleWavesCount);
      var res: seq<WaveNode> := [];
      for index := 0 to VisibleWavesCount
        invariant colorEmitter.Valid()
        invariant |res| == index && nextId == first + index
        invariant colorEmitter.offset == (start + index) % |WaveColors|
        invariant forall j :: 0 <= j < index ==> res[j] == WaveNode(first + j, draws[j], j, false)
      {
        var color := colorEmitter.GetColor();
        assert colorEmitter.offset == (start + (index + 1)) % |WaveColors| by {
          ModAddLeft(start + index, 1, |WaveColors|);
        }
        var newNode := WaveNode(nextId, color, index, false);
        nextId := nextId + 1;
        res := res + [newNode];
      }
      assert res == Burst(first, draws);
      BurstShape(first, draws);
      waveNodes := res;
    }

    /** The completion handler (`onReceive(waveFinished)`): the lag rule, then
        one fresh node in the next colour unless stopped. */
    method OnWaveFinished()
      requires Valid()
      modifies this`waveNodes, this`nextId, colorEmitter
      ensures Valid()
      ensures stop == old(stop)
      ensures stop ==>
        waveNodes == LagTrim(old(waveNodes)) && nextId == old(nextId) && unchanged(colorEmitter)
      ensures !stop ==>
        && waveNodes == AfterCompletion(old(waveNodes), false, old(nextId), old(NextDraw()))
        && nextId == old(nextId) + 1
        && colorEmitter.offset == (old(colorEmitter.offset) + 1) % |WaveColors|
    {
      CompletionInvariant(waveNodes, stop, nextId, NextDraw());
      if |waveNodes| > 0 {
        var removeFirstNode := false;
        if |waveNodes| > 1 {
          removeFirstNode := waveNodes[1].finished;
        }
        if removeFirstNode {
          waveNodes := waveNodes[1..];
        }
      }
      assert waveNodes == LagTrim(old(waveNodes));
      if !stop {
        var color := colorEmitter.GetColor();
        var newNode := WaveNode(nextId, color, 0, false);
        waveNodes := waveNodes + [newNode];
        nextId := nextId + 1;
      }
    }

    /** `onTapGesture`: stop appending; nothing else changes. */
    method OnTapGesture()
      modifies this`stop
      ensures stop
    {
      stop := true;
    }

    /** The renderer drawing node `i` with its phase at `level`: the flag
        update of the `animatableData` setter and, once the phase has reached
        1, the completion signal delivered to the completion handler. */
    method Observe(i: nat, level: Nodes.Level)
      requires Valid()
      requires i < |waveNodes|
      modifies this`waveNodes, this`nextId, colorEmitter
      ensures Valid()
      ensures level != Nodes.Full ==>
        && waveNodes == old(waveNodes)[i := Observed(old(waveNodes)[i], level)]
        && nextId == old(nextId) && unchanged(colorEmitter)
      ensures level == Nodes.Full ==>
        && waveNodes == AfterCompletion(old(waveNodes)[i := Observed(old(waveNodes)[i], level)],
                                        stop, old(nextId), old(NextDraw()))
        && (stop ==> nextId == old(nextId) && unchanged(colorEmitter))
        && (!stop ==>
              nextId == old(nextId) + 1 && colorEmitter.offset == (old(colorEmitter.offset) + 1) % |WaveColors|)
      ensures stop == old(stop)
    {
      waveNodes := waveNodes[i := Observed(waveNodes[i], level)];
      if level == Nodes.Full {
        OnWaveFinished();
      }
    }
  }
}
