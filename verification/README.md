# Empire game panel — a Dafny model of the frame pipeline

This project models the runtime core of the Empire 2D tile game, the
`GamePanel` class. It covers four things:

- The fixed-rate game loop's pacing arithmetic: the frame interval, the
  sleep before the next frame, and how the schedule advances.
- The update pass: the player, then every occupied NPC slot, then every
  occupied enemy slot.
- The render pass. It gathers the player and every occupied NPC, object and
  enemy slot into a transient frame list. It orders that list by world Y
  with a stable sort (painter's algorithm), draws the entries in order and
  clears the list.
- The panel's constants, and the setup step that enters the play state.

Modules:

- `Entities` (`entities.dfy`): an entity reduced to an identity and its
  world Y. A slot is `Empty` (Java `null`) or `Holds` an entity. `Occupants`
  lists the occupied slots in index order, the way the panel's `for`
  loops visit them.
- `DepthSort` (`depth_sort.dfy`): the ordering of the frame list.
  `StableSortByY`, a stable merge sort, models `Collections.sort` with the
  world-Y comparator. The module also has an independent insertion sort and
  a uniqueness lemma: any sorted sequence with the same equal-Y groups, in
  the same order, is the same sequence. So the two sorts agree on every
  input, and which stable algorithm the library uses does not matter.
- `Config` (`config.dfy`): the screen and world geometry, the target frame
  rate, the slot capacities and the game-state codes.
- `GameLoop` (`game_loop.dfy`): one tick of pacing, in integer
  nanoseconds. The clock readings and whether each sleep was interrupted
  are parameters.
- `GamePanel` (`game_panel.dfy`): the panel state, and the following
  operations on it:
  - `SetupGame`.
  - Gathering.
  - `Paint` and the method `PaintComponent`.
  - `Update` and the method that runs it.
  - Ticks repeated over time.

  An entity's own update is a caller-supplied function `advance`. Drawing an
  entity is recorded by appending it to the sequence of drawn entities.

Four details of the loop are easy to misread. The model follows the code:

- The frame interval is `1000000000 / FPS` as a Java `int` division. It is
  truncated before it is widened to `double`, so at 60 FPS it is exactly
  16666666 ns, slightly less than the 0.016667 seconds the comment on that
  line gives.
- The sleep is the remaining time converted to whole milliseconds by the
  `(long)` cast. A tick with 5 ms of work therefore sleeps 11 ms.
- The remaining time uses a fresh clock reading taken after the update and
  the repaint request. The time captured at the top of the loop is never
  used.
- When the sleep is interrupted, `nextDrawTime += drawInterval` is skipped,
  because it sits inside the `try` block after the sleep. The schedule
  therefore advances once per completed sleep.

## Model

| member | source | states |
|---|---|---|
| Entities.OccupantsInIndexOrder | Empire/src/main/GamePanel.java:166-182 | Each array loop collects exactly the entities of the non-null slots. There is one per occupied slot, in strictly ascending slot index, and every occupied slot is visited. |
| GamePanel.AppendOccupants | Empire/src/main/GamePanel.java:166-170 | The gathering loop appends the entities of the occupied slots, in index order, to the list it was given. |
| GamePanel.GatherInto | Empire/src/main/GamePanel.java:164-182 | The four gathering steps, run one after another, append exactly the gathered list to the frame list. |
| GamePanel.GatherMembers | Empire/src/main/GamePanel.java:164-182 | An entity is gathered exactly when it is the player or sits in some NPC, object or enemy slot. |
| GamePanel.GatherOrder | Empire/src/main/GamePanel.java:164-182 | Position by position, the frame list is the player, then the k-th occupied NPC slot, then the k-th occupied object slot, then the k-th occupied enemy slot. |
| GamePanel.GatherSizeBounds | Empire/src/main/GamePanel.java:164-182 | With the 10/10/20 capacities, a frame gathers at least the player and at most 41 entities. |
| GamePanel.EmptyWorldGathersPlayer | Empire/src/main/GamePanel.java:164-182 | With all slots null, the frame list is the player alone. |
| GamePanel.Gather | Empire/src/main/GamePanel.java:164-182 | The frame list starts with the player and holds at most one more entity per slot. |
| DepthSort.StableSortByY | Empire/src/main/GamePanel.java:185-193 | The sorted list is in non-decreasing world Y and as long as its input. |
| DepthSort.StableSortPermutes | Empire/src/main/GamePanel.java:185-193 | The sort loses and invents no entity: its result is a permutation of its input. |
| DepthSort.StableSortKeepsTieOrder | Empire/src/main/GamePanel.java:185-193 | The sort is stable: for every Y value, the entities with that Y keep their gather order. |
| DepthSort.SortedIffAllPairsOrdered | Empire/src/main/GamePanel.java:188-191 | Being ordered pair by pair is the same as no earlier entity having a larger Y than a later one. |
| DepthSort.SortedStableUnique | Empire/src/main/GamePanel.java:185-193 | Two sorted sequences with the same equal-Y groups are equal, so a stable sort's output depends only on its input. |
| DepthSort.InsertionSortKeepsTieOrder | Empire/src/main/GamePanel.java:185-193 | The reference insertion sort is also stable. |
| DepthSort.StableSortsAgree | Empire/src/main/GamePanel.java:185-193 | The merge sort and the reference insertion sort give the same order on every input. |
| DepthSort.TiesKeepGatherOrder | Empire/src/main/GamePanel.java:164-193 | Entities gathered at Y = 50, 50, 10 are drawn as the one at 10, then the first at 50, then the second at 50. |
| GamePanel.Paint | Empire/src/main/GamePanel.java:164-201 | A repaint leaves the frame list empty and changes nothing else in the panel. It draws, in non-decreasing Y, a permutation of what the list held plus the gathered entities. |
| GamePanel.PaintDrawsLiveEntitiesInDepthOrder | Empire/src/main/GamePanel.java:164-201 | From an empty list, a repaint draws exactly the live entities, sorted by Y, with equal-Y entities in gather order. |
| GamePanel.DrawAll | Empire/src/main/GamePanel.java:196-198 | The draw loop draws every list entry once, in list order. |
| GamePanel.PaintComponent | Empire/src/main/GamePanel.java:155-207 | The render pass as written agrees with `Paint`. It leaves the list empty, and from an empty list it draws a sorted permutation of the live entities. |
| GamePanel.Tick | Empire/src/main/GamePanel.java:107-109 | An update followed by a paint leaves the frame list empty and keeps the objects, the game state and the slot-array sizes. |
| GamePanel.TickDrawsBoundedFrame | Empire/src/main/GamePanel.java:107-109 | An update followed by a repaint, from a panel between frames, draws 1 to 41 entities in Y order and leaves the panel between frames. |
| GamePanel.FramesNeverAccumulate | Empire/src/main/GamePanel.java:196-201 | After any number of ticks the frame list is empty again and each tick starts from the panel the previous tick left. Tick k draws 1 to 41 entities in Y order, so nothing leaks from one frame to the next. |
| GamePanel.TickDrawsSortedGather | Empire/src/main/GamePanel.java:164-193 | A tick from a panel between frames draws exactly the reference insertion sort of the entities gathered after its update. |
| GamePanel.TickKeepsGatherTieOrder | Empire/src/main/GamePanel.java:164-193 | A tick from a panel between frames draws equal-Y entities in the order they were gathered after its update. |
| GamePanel.FrameIsSortedGather | Empire/src/main/GamePanel.java:164-193 | Tick k draws the stable sort by Y of what is gathered after that tick's update. This is the same order as the reference insertion sort, with equal-Y entities in gather order. |
| GamePanel.UpdateSlots | Empire/src/main/GamePanel.java:137-141 | One update loop updates each occupied slot's entity, in ascending index, and records whose update ran. |
| GamePanel.Update | Empire/src/main/GamePanel.java:129-153 | The update pass runs the player, then the occupied NPC slots, then the occupied enemy slots. The resulting panel is every such entity advanced. |
| GamePanel.AdvanceAll | Empire/src/main/GamePanel.java:129-153 | An update pass changes no slot's occupancy and leaves the objects, the frame list and the game state unchanged. |
| GamePanel.UpdateTraceShape | Empire/src/main/GamePanel.java:129-153 | The update trace starts with the player and has one entry per occupied NPC or enemy slot. It does not depend on the object slots, the frame list or the game state, because there is no state gating. |
| GamePanel.UpdateOrderIsGatherWithoutObjects | Empire/src/main/GamePanel.java:129-182 | The update order is the frame gather order with the object segment removed. The gathered multiset is the updated entities plus the objects. |
| GamePanel.UpdateTraceRepeats | Empire/src/main/GamePanel.java:101-153 | When updates keep identities, every tick runs the same update trace. Over n ticks each live player, NPC and enemy is updated exactly n times, in the fixed order. |
| GamePanel.NewPanel | Empire/src/main/GamePanel.java:46-59 | A new panel has empty slot arrays of capacity 10/10/20, an empty frame list and the default state 0, the download state. |
| GamePanel.SetupGame | Empire/src/main/GamePanel.java:73-80 | Setup installs the placed objects, NPCs and enemies, keeps the capacities and sets the state to play. |
| GamePanel.SetupEntersPlay | Empire/src/main/GamePanel.java:73-80 | From a new panel, setup moves from the download state to the play state. The live entities are then the player and exactly the placed ones. |
| GameLoop.DrawInterval | Empire/src/main/GamePanel.java:94 | The interval is the truncated quotient of one second by FPS. FPS 0 is a division by zero. |
| GameLoop.StartSchedule | Empire/src/main/GamePanel.java:94-95 | The first frame is due one interval after the start time. |
| GameLoop.SleepMillis | Empire/src/main/GamePanel.java:112-119 | The sleep is never negative. Waking after it lands within one millisecond before the due time, and a late tick does not sleep. |
| GameLoop.Step | Empire/src/main/GamePanel.java:111-125 | A completed sleep moves the due time exactly one interval on. An interrupted one leaves it unchanged. |
| GameLoop.Run | Empire/src/main/GamePanel.java:101-126 | A run of loop iterations never changes the frame interval. |
| GameLoop.ScheduleFollowsCompletedTicks | Empire/src/main/GamePanel.java:101-126 | After any run of ticks, the due time is the start plus one interval per completed sleep, whatever the clock read. |
| GameLoop.ScheduleIgnoresClock | Empire/src/main/GamePanel.java:101-126 | Slow or fast ticks do not shift the schedule: it depends only on which sleeps completed. |
| GameLoop.OneSecondOfTicks | Empire/src/main/GamePanel.java:94-121 | FPS completed ticks advance the schedule by at most one second, and by more than one second minus FPS nanoseconds. |
| GameLoop.SixtyFpsTick | Empire/src/main/GamePanel.java:94-121 | At 60 FPS the interval is 16666666 ns. A tick with 5 ms of work sleeps 11 ms, and the next frame is due one interval later. |
| Config.ScreenGeometry | Empire/src/main/GamePanel.java:19-26 | Tiles are 96 px and the screen is 1536 x 864 px, 16 x 9 tiles. |
| Config.GameStatesDistinct | Empire/src/main/GamePanel.java:55-59 | The four game-state codes 0 to 3 are distinct, and play is 2. |

## Left out

- Swing and AWT rendering are left out: `super.paintComponent`, tile drawing, the UI overlay, the background colour, double buffering and the preferred size. They touch no state of this model.
- An entity's own `update()` and `draw()` bodies are collaborators outside this class. An update is the parameter `advance`, and a draw is recorded in the drawn sequence. The model assumes that each update touches only its own entity, writes no slot, and does not depend on other entities. In the source, entities hold the panel and the slot arrays are public, so an update body could null or fill a slot that a later iteration of the loop then reads. `AdvanceAll`'s unchanged occupancy and objects, and `UpdateTraceRepeats`' fixed trace, rest on this assumption.
- Threading is left out: `Thread.start`, `System.nanoTime`, the real sleep and the loop that runs until the thread handle is cleared. The clock readings and interruption outcomes are parameters, and a run is a finite sequence of ticks.
- The stack trace printed after an interrupted sleep is left out. It is output only, and the loop goes on.
- `playMusic` and sound are external services. `setupGame`'s call to the music player is not modelled.
- The asset setter's placements (`setObject`, `setNPC`, `setEnemy`) are not part of this model. `SetupGame` receives the resulting slot arrays.
- The unused `timer`, `drawCount` and loop-top `currentTime` locals are left out.
- The commented-out game-state gating in `update()` is left out. The update runs in every state, and the model says so.
- Exceptions thrown by an entity's update or draw are left out. `advance` is a total function.
- GameLoop.SleepMillis: computes in exact integers. The source goes through `double`, which loses precision only for `nanoTime` values above 2^53.
- GameLoop.Step: advances the due time by exactly one interval. In the source, `nextDrawTime` is a `double`, and `nextDrawTime += drawInterval` rounds once the value passes 2^53.
- GameLoop.StartSchedule: the first due time is exactly the start plus one interval. In the source, `System.nanoTime() + drawInterval` is a `double` sum, which rounds for `nanoTime` values above 2^53.
- GamePanel.Tick: pairs each update with exactly one paint. That is an idealisation. `repaint()` only queues a request, and `paintComponent` runs later on the Swing event thread. Requests can coalesce, so a tick may draw no frame, and a paint can overlap the next `update()`. If the sort then sees a world Y change under it, the sort can throw and the clear is skipped. The per-paint facts (`Paint`, `PaintComponent`, `PaintDrawsLiveEntitiesInDepthOrder`) hold for each `paintComponent` call that sees a stable panel. The multi-tick facts (`TickDrawsBoundedFrame`, `TickDrawsSortedGather`, `TickKeepsGatherTieOrder`, `FramesNeverAccumulate`, `FrameIsSortedGather`) hold only under the one-paint-per-tick pairing.
- DepthSort.StableSortByY: is a merge sort, while the library uses TimSort. `StableSortsAgree` and `SortedStableUnique` show that every stable sort gives the same result here.
- Two slots holding the same Java object (reference identity) is not modelled. Entities are compared by value.
- The field `FPS` can be reassigned. The model takes the rate as a parameter of `StartSchedule`, and 60 is `Config.DefaultFps`.
