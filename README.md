# RainbowBar wave queue in Dafny

RainbowBar draws a stream of coloured "notch waves" that grow out from a
display notch. This project models the bookkeeping behind that stream, with
each part proved.

- **The round-robin colour selector.** The library's `ColorEmitter.nextColor(from:)` keeps a rotating copy of the palette. It resets that copy whenever it is handed a palette that differs element by element from its reference copy.
- **The wave nodes.** There are notch nodes and gradient nodes. Each has an identity, a delay and the `started`/`finished` flags that the renderer sets.
- **The queue controller inside the library's `WavesView`.**
  - The `didSet` observer of the running flag builds the start burst, or the stop filter plus the gradient cap.
  - The completion handler applies the lag rule, then appends a node while running.
  - The renderer's flag updates are modelled as an `Observe(i, level)` event.
- **The earlier prototype in the example app.** It has a fixed three-colour palette, an `onAppear` burst, the same completion handler, and a `stop` flag that a tap sets.
- **A simulation proof between the two controllers.** While the library runs on the prototype's emit period, palette and burst size, is never stopped, and no finished node is drawn again below phase 1, it moves in lock-step with the prototype.

The model is imperative where the source is.
- Both emitters and both controllers are classes, with `seq` fields that the methods reassign.
- The start bursts are `for` loops with invariants.
- Each method's contract ties the new state to a pure queue function: `Burst`, `StopQueue`, `LagTrim` or `AfterCompletion`.
- The lemmas prove what the source promises about those functions.
- The library controller keeps one invariant at every entry point:
  - identities are unique, increasing and below the next fresh one;
  - a gradient node can only be the last node;
  - `finished` implies `started`, and gradient nodes carry neither flag;
  - a gradient caps a started notch node of its front colour;
  - there is no gradient while running.

Files, one module each:
- `palette.dfy` (`Palette`): the colours, `Option`, ring rotation and the successive draws of a round-robin.
- `color_emitter.dfy` (`RainbowBarEmitter`): the library's emitter.
- `wave_node.dfy` (`RainbowBarNodes`): the nodes, the queue invariant, the queue transformations and their lemmas.
- `waves_view.dfy` (`RainbowBarWaves`): the library's controller.
- `example_waves.dfy` (`ExampleWaves`): the prototype.
- `correspondence.dfy` (`PrototypeCorrespondence`): the prototype against the library.

Modelling choices:
- Identities come from a `nextId` counter instead of `UUID()`. The node `==` of the source compares identities only (`SameNode`).
- A node's delay is its slot index. Its delay in seconds is `waveEmitPeriod * slot` (`Delay`), which is the product the source stores.
- A Swift `Color` is an enumeration plus a `Custom` case. Only equality between colours matters here.
- `visibleWavesCount` is a `nat`, because a negative count traps in `0..<visibleWavesCount`.
- An empty palette traps in `removeFirst()` on an empty array. This is a precondition exactly where a draw is reached, so the `guard … else { continue }` in the start loop is dead code.
- The renderer signals completion through a `PassthroughSubject` on the main queue. The model delivers it as a direct call to the completion handler.

Four behaviours of the code are easy to miss, and the model keeps them as
written:
- **Start burst.** Every assignment of true replaces the whole queue, even when the flag is already true. Started nodes are dropped as well.
- **Empty palette.** A draw from an empty palette traps in `removeFirst()`.
- **Completion event.** The event carries `Void` and names no node. Every event runs the lag rule, whichever node sent it.
- **Drain.** A stopped queue never drains. The gradient is never marked finished, so the started notch node in front of it is never removed. `RainbowBarNodes.StoppedQueueNeverDrains` proves that, whatever completions and renderer draws follow, the same gradient stays last with the same node in front of it.

## Model

| member | source | states |
|---|---|---|
| Palette.Rotate | RainbowBar/Classes/RainbowBar.swift:102-104 | a ring turned by `k` keeps its length; position `i` holds the element `k + i` places round the original |
| Palette.RotateAt | RainbowBar/Classes/RainbowBar.swift:102-104 | position `i` of a ring turned by `k` is element `(k + i) mod n` |
| Palette.RotateHeadToBack | RainbowBar/Classes/RainbowBar.swift:102-104 | popping the head of a turned ring and pushing it to the back yields the head `s[k]` and turns the ring by one more, wrapping at the end |
| Palette.Outputs | RainbowBar/Classes/RainbowBar.swift:96-107 | `n` successive draws from a ring whose next draw is `p[start]`; there are exactly `n` of them |
| Palette.OutputsSnoc | RainbowBar/Classes/RainbowBar.swift:123-127 | one more draw appends the colour at the current ring position |
| Palette.FairRoundRobin | RainbowBar/Classes/RainbowBar.swift:96-107 | `|p|` draws from the front yield the palette in order, and draw `|p|+1` repeats the first colour |
| Palette.OneLapIsRotation | RainbowBar/Classes/RainbowBar.swift:96-107 | from any position, one lap of draws is the palette turned to that position: every colour exactly once, in order |
| Palette.DrawsArePeriodic | RainbowBar/Classes/RainbowBar.swift:96-107 | draw `i + |p|` equals draw `i` |
| RainbowBarEmitter.ColorEmitter.constructor | RainbowBar/Classes/RainbowBar.swift:93-94 | both copies start unset |
| RainbowBarEmitter.ColorEmitter.NextColor | RainbowBar/Classes/RainbowBar.swift:96-107 | a palette other than the reference resets the rotation and yields `newColors[0]`; otherwise it yields the colour at the current rotation, the ring turns by one, and the rotation remains the reference turned, of the same length |
| RainbowBarNodes.Observed | RainbowBar/Classes/RainbowBar.swift:277-284 | a notch node becomes started once the phase is above 0 and finished once it reaches 1, so the flags never clear and `finished ⇒ started` is kept; a gradient node is never marked; identity, kind and delay are unchanged |
| RainbowBarNodes.Delay | RainbowBar/Classes/RainbowBar.swift:125 | the delay in seconds is `waveEmitPeriod * slot`: zero for slot 0, never negative for a non-negative period |
| RainbowBarNodes.SameNode | RainbowBar/Classes/RainbowBar.swift:69-71 | node `==` compares identities only; `IdentityIsPosition` proves what that means in a queue |
| RainbowBarNodes.IdentityIsPosition | RainbowBar/Classes/RainbowBar.swift:69-71 | in a queue with increasing identities, two entries are `==` exactly when they are the same position |
| RainbowBarNodes.AtMostOneGradient | RainbowBar/Classes/RainbowBar.swift:121-136 | under the invariant, any two gradient nodes are the same last node |
| RainbowBarNodes.BurstSnoc | RainbowBar/Classes/RainbowBar.swift:123-127 | the burst for one more colour is the burst plus one node delayed by one more period |
| RainbowBarNodes.Burst | RainbowBar/Classes/RainbowBar.swift:121-128 | one fresh notch node per draw, node `i` in colour `i` with slot `i`, neither started nor finished |
| RainbowBarNodes.KeepStarted | RainbowBar/Classes/RainbowBar.swift:130-132 | the filter keeps exactly the started nodes, and never more nodes than there were |
| RainbowBarNodes.KeepStartedInOrder | RainbowBar/Classes/RainbowBar.swift:130-132 | the survivors stay in their original order |
| RainbowBarNodes.StopQueue | RainbowBar/Classes/RainbowBar.swift:130-136 | the survivors of the filter come first, unchanged; exactly one node more if and only if the last survivor is a notch node, and that node is the gradient from its colour to the background with no delay |
| RainbowBarNodes.LagTrim | RainbowBar/Classes/RainbowBar.swift:151-159 | the oldest node is removed if and only if there are two or more nodes and the second has finished; at most one node goes, the rest is a suffix, and a non-empty queue stays non-empty |
| RainbowBarNodes.AfterCompletion | RainbowBar/Classes/RainbowBar.swift:149-165 | the lag rule, then exactly one fresh undelayed notch node at the back if and only if running; nothing else changes, and a stopped queue never grows |
| RainbowBarNodes.BurstInvariant | RainbowBar/Classes/RainbowBar.swift:121-128 | the start burst is a valid running queue of notch nodes in the draw colours |
| RainbowBarNodes.SurvivorsInvariant | RainbowBar/Classes/RainbowBar.swift:130-132 | the stop filter leaves a valid stopped queue of started notch nodes |
| RainbowBarNodes.CapInvariant | RainbowBar/Classes/RainbowBar.swift:133-136 | capping started notch survivors with a gradient from the last one's colour to the background keeps the invariant |
| RainbowBarNodes.StopKeepsStartedNodes | RainbowBar/Classes/RainbowBar.swift:129-137 | the notch nodes after a stop are exactly the started nodes before it; a gradient is appended if and only if a node survives |
| RainbowBarNodes.StopEmptiesOnlyUnstarted | RainbowBar/Classes/RainbowBar.swift:129-137 | a stop empties the queue if and only if no node had started |
| RainbowBarNodes.GracefulStop | RainbowBar/Classes/RainbowBar.swift:129-137 | a stop keeps exactly the started nodes in order, caps them if and only if one survives, and leaves a valid stopped queue |
| RainbowBarNodes.RepeatedStopRecaps | RainbowBar/Classes/RainbowBar.swift:129-137 | stopping a capped queue again drops the old gradient, which never started, and caps anew; at least two nodes remain |
| RainbowBarNodes.LagTrimInvariant | RainbowBar/Classes/RainbowBar.swift:151-159 | the lag rule keeps the invariant and never removes the node in front of a trailing gradient |
| RainbowBarNodes.AppendNotchInvariant | RainbowBar/Classes/RainbowBar.swift:161-165 | appending a fresh notch node keeps a running queue valid |
| RainbowBarNodes.CompletionInvariant | RainbowBar/Classes/RainbowBar.swift:149-165 | the completion handler keeps the invariant |
| RainbowBarNodes.ObserveInvariant | RainbowBar/Classes/RainbowBar.swift:277-284 | a renderer flag update keeps the invariant |
| RainbowBarNodes.StoppedStep | RainbowBar/Classes/RainbowBar.swift:149-165 | one completion or renderer draw while stopped removes at most one node and appends none |
| RainbowBarNodes.StoppedRun | RainbowBar/Classes/RainbowBar.swift:149-165 | a sequence of events while stopped removes at most one node per event and never grows the queue |
| RainbowBarNodes.CompletionKeepsCap | RainbowBar/Classes/RainbowBar.swift:149-165 | a completion keeps a stopped queue valid, at least two long and capped by the same gradient |
| RainbowBarNodes.ObservationKeepsCap | RainbowBar/Classes/RainbowBar.swift:322-326 | a renderer observation keeps a stopped queue capped by the same gradient |
| RainbowBarNodes.StoppedStepKeepsCap | RainbowBar/Classes/RainbowBar.swift:149-165 | any single event keeps a stopped queue capped by the same gradient |
| RainbowBarNodes.StoppedQueueNeverDrains | RainbowBar/Classes/RainbowBar.swift:149-165 | after a stop that left a gradient, no sequence of completions and renderer draws drains the queue: the same gradient stays last, with the same node in front of it |
| RainbowBarWaves.WavesView.constructor | RainbowBar/Classes/RainbowBar.swift:110-119 | an empty queue that is not running, and an emitter with no palette |
| RainbowBarWaves.WavesView.SetAnimated | RainbowBar/Classes/RainbowBar.swift:119-139 | on every assignment: true replaces the whole queue by `visibleWavesCount` fresh notch nodes, node `i` delayed by `i` periods in the `i`-th successive draw; false is the stop filter plus the cap; the invariant is kept |
| RainbowBarWaves.WavesView.EmitBurst | RainbowBar/Classes/RainbowBar.swift:121-128 | the loop's result is the burst of the successive draws, and the emitter has advanced by `visibleWavesCount` |
| RainbowBarWaves.WavesView.Cap | RainbowBar/Classes/RainbowBar.swift:130-136 | the queue becomes the started nodes plus the cap, and a fresh identity is used only for the cap |
| RainbowBarWaves.WavesView.OnWaveFinished | RainbowBar/Classes/RainbowBar.swift:149-165 | while stopped, only the lag rule and no draw; while running, the lag rule plus one node in the emitter's next colour; the invariant is kept |
| RainbowBarWaves.WavesView.Observe | RainbowBar/Classes/RainbowBar.swift:277-284 | the flag update of node `i`; at phase 1 the completion handler also runs on the updated queue |
| ExampleWaves.ColorEmitter.constructor | RainbowBarExample/RainbowBarExample/WavesView.swift:16-17 | the ring starts as the fixed palette |
| ExampleWaves.ColorEmitter.GetColor | RainbowBarExample/RainbowBarExample/WavesView.swift:19-23 | yields the colour at the current ring position and turns the ring by one; three colours remain |
| ExampleWaves.DrawOrder | RainbowBarExample/RainbowBarExample/WavesView.swift:14-23 | successive draws from a fresh emitter are red, green, blue, red |
| ExampleWaves.Observed | RainbowBarExample/RainbowBarExample/WavesView.swift:99-105 | `finished` becomes whether the phase has reached 1, and nothing else changes |
| ExampleWaves.Delay | RainbowBarExample/RainbowBarExample/WavesView.swift:74 | the delay in seconds is `0.66 * slot`: zero for slot 0, never negative |
| ExampleWaves.BurstShape | RainbowBarExample/RainbowBarExample/WavesView.swift:71-77 | one node per draw, in draw order, node `i` delayed by `waveEmitPeriod * i`, identities unique |
| ExampleWaves.Burst | RainbowBarExample/RainbowBarExample/WavesView.swift:71-77 | one fresh node per draw, node `i` in colour `i` with slot `i`, not finished |
| ExampleWaves.LagTrim | RainbowBarExample/RainbowBarExample/WavesView.swift:52-60 | the first node is removed if and only if there are two or more nodes and the second has finished; at most one node goes |
| ExampleWaves.AfterCompletion | RainbowBarExample/RainbowBarExample/WavesView.swift:50-67 | the lag rule, then one fresh undelayed node at the back if and only if not stopped |
| ExampleWaves.CompletionInvariant | RainbowBarExample/RainbowBarExample/WavesView.swift:50-67 | a completion keeps identities unique and below the next fresh one |
| ExampleWaves.SuffixUpToFlagsTrans | RainbowBarExample/RainbowBarExample/WavesView.swift:50-60 | proof helper, no source behaviour of its own: a suffix of a suffix, up to the flags, is a suffix, which chains the stopped steps in `StoppedQueueShrinks` |
| ExampleWaves.LagTrimIsSuffix | RainbowBarExample/RainbowBarExample/WavesView.swift:52-60 | the lag rule leaves a suffix of the queue |
| ExampleWaves.ObservedIsSuffix | RainbowBarExample/RainbowBarExample/WavesView.swift:101-104 | a flag overwrite changes no node beyond its `finished` flag |
| ExampleWaves.StoppedStep | RainbowBarExample/RainbowBarExample/WavesView.swift:50-67 | once stopped, one completion or draw removes at most one node, appends none, and keeps a non-empty queue non-empty |
| ExampleWaves.StoppedStepIsSuffix | RainbowBarExample/RainbowBarExample/WavesView.swift:50-67 | once stopped, one event leaves a suffix of the queue up to the flags |
| ExampleWaves.StoppedQueueShrinks | RainbowBarExample/RainbowBarExample/WavesView.swift:63-69 | after the tap, any sequence of completions and renderer draws appends nothing: the queue stays a non-empty suffix of what it was, up to the `finished` flags, at most one node shorter per event |
| ExampleWaves.WavesView.constructor | RainbowBarExample/RainbowBarExample/WavesView.swift:39-43 | not stopped, an empty queue, and a fresh emitter |
| ExampleWaves.WavesView.OnAppear | RainbowBarExample/RainbowBarExample/WavesView.swift:70-78 | the queue becomes exactly `visibleWavesCount` nodes, node `i` delayed by `i` periods in the `i`-th successive draw; `stop` is unchanged |
| ExampleWaves.WavesView.OnWaveFinished | RainbowBarExample/RainbowBarExample/WavesView.swift:50-67 | when stopped, only the lag rule and no draw; otherwise the lag rule plus one node in the next colour; `stop` is unchanged |
| ExampleWaves.WavesView.OnTapGesture | RainbowBarExample/RainbowBarExample/WavesView.swift:68-70 | sets `stop`; nothing clears it, since every other method keeps it |
| ExampleWaves.WavesView.Observe | RainbowBarExample/RainbowBarExample/WavesView.swift:99-115 | the flag update of node `i`; at phase 1 the completion handler also runs |
| PrototypeCorrespondence.ProjectKeepsDelay | RainbowBarExample/RainbowBarExample/WavesView.swift:74 | a projected node keeps its delay in seconds at the prototype's emit period |
| PrototypeCorrespondence.RunningQueueAllNotch | RainbowBar/Classes/RainbowBar.swift:121-136 | a running library queue holds notch nodes only |
| PrototypeCorrespondence.BurstCorresponds | RainbowBarExample/RainbowBarExample/WavesView.swift:70-78 | the two start bursts give the same nodes from the same draws |
| PrototypeCorrespondence.LagTrimCorresponds | RainbowBarExample/RainbowBarExample/WavesView.swift:52-60 | the two lag rules remove the same node |
| PrototypeCorrespondence.CompletionCorresponds | RainbowBarExample/RainbowBarExample/WavesView.swift:50-67 | the two completion handlers give the same queue when running is the negation of `stop` |
| PrototypeCorrespondence.ObservedCorresponds | RainbowBarExample/RainbowBarExample/WavesView.swift:99-105 | the two renderers agree on a node if and only if the phase is 1 or the node has not finished |
| PrototypeCorrespondence.ObserveQueueCorresponds | RainbowBarExample/RainbowBarExample/WavesView.swift:99-115 | an observation the renderers agree on gives the same queue |
| PrototypeCorrespondence.CorrespondingDelays | RainbowBarExample/RainbowBarExample/WavesView.swift:74 | in corresponding states every node has the same delay in seconds in both controllers |
| PrototypeCorrespondence.Start | RainbowBarExample/RainbowBarExample/WavesView.swift:70-78 | starting the library and the prototype's `onAppear` reach corresponding states |
| PrototypeCorrespondence.Completion | RainbowBarExample/RainbowBarExample/WavesView.swift:50-67 | a completion in both keeps them corresponding |
| PrototypeCorrespondence.Observation | RainbowBarExample/RainbowBarExample/WavesView.swift:99-115 | an observation of the same node in both keeps them corresponding |

## Left out

- SwiftUI presentation is not modelled, because it does not touch the queue. This covers `RainbowBar.body`, blur, rotation effects, `ForEach`, `drawingGroup` and the prototype's `RainbowBar` and preview views.
- Path and gradient geometry is not modelled, because it is floating-point drawing only. This covers `NotchWave.path` after the flag updates, `GradientWave`'s layout, and the prototype's path.
- Animation timing is left out: `easeIn(duration:)`, `.delay` and phase interpolation. The renderer is the abstract `Observe(i, level)` event, with `level` one of Zero, Partial and Full.
- Main-queue dispatch and `PassthroughSubject` delivery are modelled as synchronous calls. Events that the asynchronous hops could reorder are not modelled.
- `animatedSignal` delivery (RainbowBar.swift:166-167) is not modelled on its own. It is the plain assignment that `SetAnimated` models.
- `DeviceDependentOptions` and `Device.size()` are left out. They are device lookup tables over a foreign library.
- The example UI files and `Package.swift` are left out. They hold only buttons, layout and the build manifest.
- The `Double` delay is left out. A node stores its slot, and `Delay` gives `waveEmitPeriod * slot` as an exact real, with no floating-point rounding.
- `UUID()` is replaced by a counter. Fresh identities are therefore unique by construction rather than with high probability.
- RainbowBarWaves.WavesView.Observe: a completion signal sent by a view whose node has already left the queue is not an `Observe` call. It has the same effect as `OnWaveFinished`, which models it.
- ExampleWaves.WavesView.Observe: a completion signal sent by a view whose node has already left the queue is not an `Observe` call. It has the same effect as `OnWaveFinished`, which models it.
- ExampleWaves.StoppedQueueShrinks: as for the library, a draw of a position the queue no longer has changes nothing, and a stale completion signal is the separate `Completion` event.
- RainbowBarNodes.StoppedQueueNeverDrains: an observation of a position the queue no longer has changes nothing. A stale completion signal is the separate `Completion` event.
- PrototypeCorrespondence.Corresponds: the correspondence holds only while the library runs and the prototype has not been tapped. After a stop the two differ: the library drops unstarted nodes and appends a gradient, while the prototype keeps every node.
- PrototypeCorrespondence.Observation: it requires that a finished node is not drawn again below phase 1. The prototype then clears `finished` and the library does not (`ObservedCorresponds` proves they differ exactly there).
- ExampleWaves.Observed: because the prototype's `animatableData` setter fires on every frame, the model assigns `finished` on each observation and does not order the phases.
- The prototype's `IdsIncreasing`, `IdsBelow`, `LagTrim`, `AfterCompletion`, `StoppedStep` and `StoppedRun` have the library's shape but are stated over the prototype's own node type, which has no kind tag and no `started` flag. `PrototypeCorrespondence` proves that the two versions agree.
- The colour emitter's lifetime is not modelled. In both files the emitter is a plain stored property of the view value (RainbowBar.swift:116, WavesView.swift:42), so SwiftUI replaces it whenever the host re-creates `WavesView`, while the `@State` queue and flag survive. The model keeps one emitter per controller for good. After a re-creation the real draws restart at the palette's front, which is the reset case of `NextColor`. The prototype's fixed-palette emitter has no reset case.
- No bound on the running queue's length is claimed. A completion while running never shortens the queue (`AfterCompletion` ensures `|q| <= |r| <= |q| + 1`). It keeps the length only when the second node has finished, so the size depends on the renderer's timing, which the model leaves to the order of `Observe` events.
