/** The queue controller inside the library's `WavesView`
    (RainbowBar/Classes/RainbowBar.swift): the running flag with its `didSet`
    observer, the completion handler, and the renderer's observations. */
module RainbowBarWaves {
  import opened Palette
  import opened RainbowBarEmitter
  import opened RainbowBarNodes

  class WavesView {
    const waveEmitPeriod: real
    const visibleWavesCount: nat
    const waveColors: seq<Color>
    const backgroundColor: Color

    const colorEmitter: ColorEmitter
    var waveNodes: seq<WaveNode>
    /** `animatedInnerState`: the running flag. */
    var animatedInnerState: bool
    /** The identity the next node created receives (the source draws a UUID). */
    var nextId: nat

    ghost predicate Valid()
      reads this, colorEmitter
    {
      && colorEmitter.Valid()
      && QueueInvariant(waveNodes, animatedInnerState, nextId, backgroundColor)
    }

    /** The colour the emitter hands out on its next draw from the palette. */
    ghost function NextDraw(): (r: Color)
      reads this, colorEmitter
      requires colorEmitter.Valid() && |waveColors| > 0
    {
      waveColors[colorEmitter.StartOffset(waveColors)]
    }

    constructor (waveEmitPeriod: real, visibleWavesCount: nat, waveColors: seq<Color>, backgroundColor: Color)
      ensures Valid() && fresh(colorEmitter)
      ensures this.waveEmitPeriod == waveEmitPeriod && this.visibleWavesCount == visibleWavesCount
      ensures this.waveColors == waveColors && this.backgroundColor == backgroundColor
      ensures waveNodes == [] && !animatedInnerState && nextId == 0
      ensures colorEmitter.refColors == None
    {
      this.waveEmitPeriod := waveEmitPeriod;
      this.visibleWavesCount := visibleWavesCount;
      this.waveColors := waveColors;
      this.backgroundColor := backgroundColor;
      colorEmitter := new ColorEmitter();
      waveNodes := [];
      animatedInnerState := false;
      nextId := 0;
    }

    /** Assigning `animatedInnerState` runs its `didSet` observer, on every
        assignment, also of the value it already holds.
        Assigning true replaces the whole queue by a burst of
        `visibleWavesCount` fresh notch nodes, node `i` delayed by `i` emit
        periods and coloured by the emitter's `i`-th successive draw.
        Assigning false drops every node that has not started and caps the
        survivors with a gradient node when the last of them is a notch node.
        The burst draws from the palette, and an empty one traps. */
    method SetAnimated(animated: bool)
      requires Valid()
      requires animated && visibleWavesCount > 0 ==> |waveColors| > 0
      modifies this, colorEmitter
      ensures Valid()
      ensures animatedInnerState == animated
      ensures animated && visibleWavesCount == 0 ==>
        waveNodes == [] && nextId == old(nextId) && unchanged(colorEmitter)
      ensures animated && visibleWavesCount > 0 ==>
        && waveNodes == Burst(old(nextId),
                              Outputs(waveColors, old(colorEmitter.StartOffset(waveColors)), visibleWavesCount))
        && nextId == old(nextId) + visibleWavesCount
        && colorEmitter.refColors == Some(waveColors)
        && colorEmitter.offset == (old(colorEmitter.StartOffset(waveColors)) + visibleWavesCount) % |waveColors|
      ensures !animated ==>
        && waveNodes == StopQueue(old(waveNodes), backgroundColor, old(nextId))
        && nextId == old(nextId) + (|waveNodes| - |KeepStarted(old(waveNodes))|)
        && unchanged(colorEmitter)
    {
      animatedInnerState := animated;
      if animatedInnerState {
        var res := EmitBurst();
        waveNodes := res;
      } else {
        Cap();
      }
    }

    /** The loop of the start branch: one fresh notch node per slot, each
        coloured by the next draw from the palette. */
    method EmitBurst() returns (res: seq<WaveNode>)
      requires colorEmitter.Valid()
      requires visibleWavesCount > 0 ==> |waveColors| > 0
      modifies this`nextId, colorEmitter
      ensures colorEmitter.Valid()
      ensures QueueInvariant(res, true, nextId, backgroundColor)
      ensures visibleWavesCount == 0 ==> res == [] && nextId == old(nextId) && unchanged(colorEmitter)
      ensures visibleWavesCount > 0 ==>
        && res == Burst(old(nextId),
                        Outputs(waveColors, old(colorEmitter.StartOffset(waveColors)), visibleWavesCount))
        && nextId == old(nextId) + visibleWavesCount
        && colorEmitter.refColors == Some(waveColors)
        && colorEmitter.offset == (old(colorEmitter.StartOffset(waveColors)) + visibleWavesCount) % |waveColors|
    {
      res := [];
      if visibleWavesCount == 0 {
        return;
      }
      ghost var first := nextId;
      ghost var start := colorEmitter.StartOffset(waveColors);
      ghost var draws := Outputs(waveColors, start, visibleWavesCount);
      for index := 0 to visibleWavesCount
        invariant colorEmitter.Valid()
        invariant |res| == index && nextId == first + index
        invariant colorEmitter.StartOffset(waveColors) == (start + index) % |waveColors|
        invariant index > 0 ==> colorEmitter.refColors.Some? && colorEmitter.refColors.value == waveColors
        invariant forall j :: 0 <= j < index ==> res[j] == WaveNode(first + j, Notch(draws[j]), j, false, false)
      {
        var color := colorEmitter.NextColor(waveColors);
        assert colorEmitter.StartOffset(waveColors) == (start + (index + 1)) % |waveColors| by {
          ModAddLeft(start + index, 1, |waveColors|);
        }
        var newNode := WaveNode(nextId, Notch(color), index, false, false);
        nextId := nextId + 1;
        res := res + [newNode];
      }
      assert res == Burst(first, draws);
      BurstInvariant(first, draws, backgroundColor);
    }

    /** The stop branch: `removeAll { !$0.started }`, then a gradient from the
        last survivor's colour to the background when that survivor is a
        notch node. */
    method Cap()
      requires Valid() && !animatedInnerState
      modifies this`waveNodes, this`nextId
      ensures Valid()
      ensures waveNodes == StopQueue(old(waveNodes), backgroundColor, old(nextId))
      ensures nextId == old(nextId) + (|waveNodes| - |KeepStarted(old(waveNodes))|)
    {
      GracefulStop(waveNodes, false, nextId, backgroundColor);
      waveNodes := KeepStarted(waveNodes);
      if |waveNodes| > 0 && waveNodes[|waveNodes| - 1].kind.Notch? {
        var lastVisibleNode := waveNodes[|waveNodes| - 1];
        var gradientNode := WaveNode(nextId, Gradient(lastVisibleNode.kind.color, backgroundColor), 0, false, false);
        nextId := nextId + 1;
        waveNodes := waveNodes + [gradientNode];
      }
    }

    /** The completion handler (`onReceive(waveFinished)`); the event names no
        node. It drops the oldest node when the second-oldest has finished,
        then, while running, appends a fresh notch node with no delay in the
        emitter's next colour. The draw traps on an empty palette. */
    method OnWaveFinished()
      requires Valid()
      requires animatedInnerState ==> |waveColors| > 0
      modifies this`waveNodes, this`nextId, colorEmitter
      ensures Valid()
      ensures !animatedInnerState ==>
        waveNodes == LagTrim(old(waveNodes)) && nextId == old(nextId) && unchanged(colorEmitter)
      ensures animatedInnerState ==>
        && waveNodes == AfterCompletion(old(waveNodes), true, old(nextId), old(NextDraw()))
        && nextId == old(nextId) + 1
        && colorEmitter.refColors == Some(waveColors)
        && colorEmitter.offset == (old(colorEmitter.StartOffset(waveColors)) + 1) % |waveColors|
    {
      CompletionInvariant(waveNodes, animatedInnerState, nextId, backgroundColor,
                          if animatedInnerState then NextDraw() else backgroundColor);
      if |waveNodes| > 0 {
        var removeFirstNode := false;
        if |waveNodes| > 1 {
          removeFirstNode := waveNodes[1].finished;
        }
        if removeFirstNode {
          waveNodes := waveNodes[1..];
        }
      }
      if animatedInnerState {
        var color := colorEmitter.NextColor(waveColors);
        var newNode := WaveNode(nextId, Notch(color), 0, false, false);
        waveNodes := waveNodes + [newNode];
        nextId := nextId + 1;
      }
    }

    /** The renderer drawing node `i` with its phase at `level`: the flag
        updates of `NotchWave.path` (none for a gradient node), and, once the
        phase has reached 1, the completion signal, which the subscription
        delivers to the completion handler. */
    method Observe(i: nat, level: Level)
      requires Valid()
      requires i < |waveNodes|
      requires level == Full && animatedInnerState ==> |waveColors| > 0
      modifies this`waveNodes, this`nextId, colorEmitter
      ensures Valid()
      ensures level != Full ==>
        && waveNodes == old(waveNodes)[i := Observed(old(waveNodes)[i], level)]
        && nextId == old(nextId) && unchanged(colorEmitter)
      ensures level == Full && !animatedInnerState ==>
        && waveNodes == LagTrim(old(waveNodes)[i := Observed(old(waveNodes)[i], level)])
        && nextId == old(nextId) && unchanged(colorEmitter)
      ensures level == Full && animatedInnerState ==>
        && waveNodes == AfterCompletion(old(waveNodes)[i := Observed(old(waveNodes)[i], level)],
                                        true, old(nextId), old(NextDraw()))
        && nextId == old(nextId) + 1
        && colorEmitter.refColors == Some(waveColors)
        && colorEmitter.offset == (old(colorEmitter.StartOffset(waveColors)) + 1) % |waveColors|
    {
      ObserveInvariant(waveNodes, i, level, animatedInnerState, nextId, backgroundColor);
      waveNodes := waveNodes[i := Observed(waveNodes[i], level)];
      if level == Full {
        OnWaveFinished();
      }
    }
  }
}
