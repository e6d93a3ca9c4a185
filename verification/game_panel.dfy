/** The game panel's frame pipeline: setup, the update pass over the entity
    slots, and the render pass that gathers every live entity into a
    transient list, orders it by world Y (painter's algorithm), draws it and
    clears it.

    Entities' own update and draw bodies are opaque: an update is a caller
    supplied function `advance`, and drawing an entity is recorded by
    appending it to the sequence of drawn entities. Tile and overlay
    drawing, which bracket the entity drawing, touch none of this state.
 */
module GamePanel {
  import opened Entities
  import opened DepthSort
  import opened Config

  /** The panel state the frame pipeline reads and writes: the player, the
      three slot arrays, the transient frame entity list and the game
      state. */
  datatype Panel = Panel(
    player: Entity,
    obj: seq<Slot>,
    npc: seq<Slot>,
    enemy: seq<Slot>,
    entityList: seq<Entity>,
    gameState: int)

  /** The slot arrays have their fixed capacities. */
  predicate HasCapacities(p: Panel) {
    |p.obj| == ObjCapacity && |p.npc| == NpcCapacity && |p.enemy| == EnemyCapacity
  }

  function EmptySlots(n: nat): (r: seq<Slot>)
    ensures |r| == n
    ensures forall i :: 0 <= i < n ==> r[i] == Empty
  {
    seq(n, i => Empty)
  }

  /** A freshly constructed panel: every slot empty, the frame list empty,
      and the state field at its default, which is the download state. */
  function NewPanel(player: Entity): (p: Panel)
    ensures HasCapacities(p)
    ensures p.player == player && p.entityList == []
    ensures p.gameState == DownloadState
    ensures forall i :: 0 <= i < |p.obj| ==> p.obj[i] == Empty
    ensures forall i :: 0 <= i < |p.npc| ==> p.npc[i] == Empty
    ensures forall i :: 0 <= i < |p.enemy| ==> p.enemy[i] == Empty
  {
    Panel(player, EmptySlots(ObjCapacity), EmptySlots(NpcCapacity), EmptySlots(EnemyCapacity), [], 0)
  }

  // ----- Setup -----

  /** Setup: the asset setter fills the object, NPC and enemy slots (its
      placements are supplied here), background music starts, and the game
      enters the play state. */
  function SetupGame(p: Panel, objects: seq<Slot>, npcs: seq<Slot>, enemies: seq<Slot>): (q: Panel)
    requires |objects| == |p.obj| && |npcs| == |p.npc| && |enemies| == |p.enemy|
    ensures q.gameState == PlayState
    ensures q.obj == objects && q.npc == npcs && q.enemy == enemies
    ensures q.player == p.player && q.entityList == p.entityList
    ensures HasCapacities(p) ==> HasCapacities(q)
  {
    p.(obj := objects, npc := npcs, enemy := enemies, gameState := PlayState)
  }

  /** Starting from a new panel, setup moves the state from downloading to
      playing, and the live entities are then the player and exactly the
      placed ones. */
  lemma SetupEntersPlay(player: Entity, objects: seq<Slot>, npcs: seq<Slot>, enemies: seq<Slot>)
    requires |objects| == ObjCapacity && |npcs| == NpcCapacity && |enemies| == EnemyCapacity
    ensures NewPanel(player).gameState == DownloadState
    ensures var q := SetupGame(NewPanel(player), objects, npcs, enemies);
            q.gameState == PlayState && HasCapacities(q) &&
            Gather(q) == [player] + Occupants(npcs) + Occupants(objects) + Occupants(enemies)
  {
  }

  // ----- Render pass: gathering the frame entity list -----

  /** The frame entity list before sorting: the player, then the occupied
      NPC slots, then the occupied object slots, then the occupied enemy
      slots, each array in ascending index. */
  function Gather(p: Panel): (g: seq<Entity>)
    ensures 1 <= |g| <= 1 + |p.npc| + |p.obj| + |p.enemy|
    ensures g[0] == p.player
  {
    [p.player] + Occupants(p.npc) + Occupants(p.obj) + Occupants(p.enemy)
  }

  /** An entity is gathered exactly when it is the player or held by some
      slot of one of the three arrays. */
  lemma GatherMembers(p: Panel, e: Entity)
    ensures e in Gather(p) <==>
              e == p.player || Holds(e) in p.npc || Holds(e) in p.obj || Holds(e) in p.enemy
  {
  }

  /** The gathered list is the player followed by the three arrays'
      occupants, NPCs first, then objects, then enemies. */
  lemma GatherSegments(p: Panel)
    ensures var n, o := |Occupants(p.npc)|, |Occupants(p.obj)|;
            |Gather(p)| == 1 + n + o + |Occupants(p.enemy)| &&
            Gather(p)[0] == p.player &&
            Gather(p)[1..1 + n] == Occupants(p.npc) &&
            Gather(p)[1 + n..1 + n + o] == Occupants(p.obj) &&
            Gather(p)[1 + n + o..] == Occupants(p.enemy)
  {
  }

  /** Position by position, the gathered list is the player, then the
      entity of the k-th occupied NPC slot, then of the k-th occupied object
      slot, then of the k-th occupied enemy slot; occupied indices ascend
      and cover every occupied slot (`OccupantsInIndexOrder`), so no slot is
      missed or visited twice. */
  lemma GatherOrder(p: Panel)
    ensures |Gather(p)| ==
              1 + |OccupiedIndices(p.npc, 0)| + |OccupiedIndices(p.obj, 0)| + |OccupiedIndices(p.enemy, 0)|
    ensures Gather(p)[0] == p.player
    ensures forall k :: 0 <= k < |OccupiedIndices(p.npc, 0)| ==>
              OccupiedIndices(p.npc, 0)[k] < |p.npc| &&
              p.npc[OccupiedIndices(p.npc, 0)[k]] == Holds(Gather(p)[1 + k])
    ensures forall k :: 0 <= k < |OccupiedIndices(p.obj, 0)| ==>
              OccupiedIndices(p.obj, 0)[k] < |p.obj| &&
              p.obj[OccupiedIndices(p.obj, 0)[k]] ==
                Holds(Gather(p)[1 + |OccupiedIndices(p.npc, 0)| + k])
    ensures forall k :: 0 <= k < |OccupiedIndices(p.enemy, 0)| ==>
              OccupiedIndices(p.enemy, 0)[k] < |p.enemy| &&
              p.enemy[OccupiedIndices(p.enemy, 0)[k]] ==
                Holds(Gather(p)[1 + |OccupiedIndices(p.npc, 0)| + |OccupiedIndices(p.obj, 0)| + k])
  {
    GatherSegments(p);
    var n := |Occupants(p.npc)|;
    var o := |Occupants(p.obj)|;
    SegmentFollowsIndices(Gather(p), 1, p.npc);
    SegmentFollowsIndices(Gather(p), 1 + n, p.obj);
    SegmentFollowsIndices(Gather(p), 1 + n + o, p.enemy);
  }

  /** A stretch of `g` starting at `start` that holds the occupants of
      `slots` lists, at offset k, the entity of the k-th occupied slot. */
  lemma SegmentFollowsIndices(g: seq<Entity>, start: nat, slots: seq<Slot>)
    requires start + |Occupants(slots)| <= |g|
    requires g[start..start + |Occupants(slots)|] == Occupants(slots)
    ensures |OccupiedIndices(slots, 0)| == |Occupants(slots)|
    ensures forall k :: 0 <= k < |OccupiedIndices(slots, 0)| ==>
              OccupiedIndices(slots, 0)[k] < |slots| &&
              slots[OccupiedIndices(slots, 0)[k]] == Holds(g[start + k])
  {
    OccupantsInIndexOrder(slots);
    forall k | 0 <= k < |Occupants(slots)|
      ensures g[start + k] == Occupants(slots)[k]
    {
      assert g[start + k] == g[start..start + |Occupants(slots)|][k];
    }
  }

  /** With the fixed capacities, a frame gathers between 1 and 41 entities:
      the player plus at most 10 + 10 + 20 slot occupants. */
  lemma GatherSizeBounds(p: Panel)
    requires HasCapacities(p)
    ensures 1 <= |Gather(p)| <= 1 + NpcCapacity + ObjCapacity + EnemyCapacity
    ensures 1 + NpcCapacity + ObjCapacity + EnemyCapacity == 41
  {
  }

  /** An empty world gathers the player alone. */
  lemma EmptyWorldGathersPlayer(player: Entity)
    ensures Gather(NewPanel(player)) == [player]
  {
    var p := NewPanel(player);
    NoOccupants(p.npc);
    NoOccupants(p.obj);
    NoOccupants(p.enemy);
  }

  lemma {:induction false} NoOccupants(slots: seq<Slot>)
    requires forall i :: 0 <= i < |slots| ==> slots[i] == Empty
    ensures Occupants(slots) == []
    decreases |slots|
  {
    if slots != [] {
      NoOccupants(slots[1..]);
    }
  }

  // ----- Render pass: one frame -----

  /** What one repaint leaves behind: the panel afterwards, and the
      entities drawn, in drawing order. */
  datatype Frame = Frame(panel: Panel, drawn: seq<Entity>)

  /** One repaint: gather onto the frame entity list, sort it by world Y,
      draw it in order, then clear it. */
  function Paint(p: Panel): (f: Frame)
    ensures f.panel.entityList == []
    ensures f.panel.(entityList := p.entityList) == p
    ensures SortedByY(f.drawn)
    ensures multiset(f.drawn) == multiset(p.entityList + Gather(p))
  {
    StableSortPermutes(p.entityList + Gather(p));
    Frame(p.(entityList := []), StableSortByY(p.entityList + Gather(p)))
  }

  /** A frame that starts with an empty list draws exactly the live
      entities: a permutation of the gathered list, in non-decreasing world
      Y, with equal-Y entities in gather order. */
  lemma {:induction false} PaintDrawsLiveEntitiesInDepthOrder(p: Panel)
    requires p.entityList == []
    ensures KeepsTieOrder(Gather(p), Paint(p).drawn)
    ensures multiset(Paint(p).drawn) == multiset(Gather(p))
    ensures SortedByY(Paint(p).drawn)
  {
    assert p.entityList + Gather(p) == Gather(p);
    StableSortKeepsTieOrder(Gather(p));
  }

  /** Appends the entity of every occupied slot to `list`, in ascending
      slot index: one of the render pass's gathering loops. */
  method AppendOccupants(list: seq<Entity>, slots: seq<Slot>) returns (r: seq<Entity>)
    ensures r == list + Occupants(slots)
  {
    r := list;
    var i := 0;
    while i < |slots|
      invariant 0 <= i <= |slots|
      invariant r == list + Occupants(slots[..i])
    {
      assert slots[..i + 1] == slots[..i] + [slots[i]];
      OccupantsSnoc(slots[..i], slots[i]);
      if slots[i].Holds? {
        r := r + [slots[i].entity];
      }
      i := i + 1;
    }
    assert slots[..|slots|] == slots;
  }

  /** The gathering half of the render pass: the player, then the three
      slot arrays, added to the frame list. */
  method GatherInto(p: Panel) returns (list: seq<Entity>)
    ensures list == p.entityList + Gather(p)
  {
    var npc, obj, enemy := Occupants(p.npc), Occupants(p.obj), Occupants(p.enemy);
    list := p.entityList + [p.player];
    list := AppendOccupants(list, p.npc);
    list := AppendOccupants(list, p.obj);
    list := AppendOccupants(list, p.enemy);
    assert list == p.entityList + [p.player] + npc + obj + enemy;
    assert Gather(p) == [p.player] + npc + obj + enemy;
  }

  /** Draws every entry of the list in order, recording each draw. */
  method DrawAll(list: seq<Entity>) returns (drawn: seq<Entity>)
    ensures drawn == list
  {
    drawn := [];
    var i := 0;
    while i < |list|
      invariant 0 <= i <= |list|
      invariant drawn == list[..i]
    {
      drawn := drawn + [list[i]];
      i := i + 1;
    }
  }

  /** The render pass as the panel runs it: add the player and the three
      slot arrays to the frame list, sort the list by world Y (stable),
      draw every entry in order, then clear the list. */
  method PaintComponent(p: Panel) returns (q: Panel, drawn: seq<Entity>)
    ensures Frame(q, drawn) == Paint(p)
    ensures q.entityList == []
    ensures p.entityList == [] ==> multiset(drawn) == multiset(Gather(p)) && SortedByY(drawn)
  {
    var list := GatherInto(p);
    list := StableSortByY(list);
    drawn := DrawAll(list);
    list := [];
    q := p.(entityList := list);
    assert p.entityList == [] ==> p.entityList + Gather(p) == Gather(p);
  }

  // ----- Update pass -----

  /** The entities whose update runs, in order: the player, then the
      occupied NPC slots, then the occupied enemy slots. Object slots are
      never updated, and the game state is not consulted. */
  function UpdateOrder(p: Panel): seq<Entity> {
    [p.player] + Occupants(p.npc) + Occupants(p.enemy)
  }

  /** The ids whose update runs, in order. */
  function UpdateTrace(p: Panel): seq<nat> {
    Ids(UpdateOrder(p))
  }

  /** The update trace starts with the player, lists one id per occupied
      NPC or enemy slot and none for empty or object slots, and does not
      depend on the object slots, the frame list or the game state. */
  lemma UpdateTraceShape(p: Panel, objects: seq<Slot>, list: seq<Entity>, state: int)
    ensures UpdateTrace(p)[0] == p.player.id
    ensures |UpdateTrace(p)| == 1 + |OccupiedIndices(p.npc, 0)| + |OccupiedIndices(p.enemy, 0)|
    ensures UpdateTrace(p.(obj := objects, entityList := list, gameState := state)) == UpdateTrace(p)
  {
    OccupantsInIndexOrder(p.npc);
    OccupantsInIndexOrder(p.enemy);
  }

  /** Every updated entity is also drawn that frame, and the entities drawn
      but not updated are the object slots' occupants: the update order is
      the gathered list with the object segment removed. */
  lemma UpdateOrderIsGatherWithoutObjects(p: Panel)
    ensures UpdateOrder(p) == Gather(p.(obj := EmptySlots(|p.obj|)))
    ensures multiset(Gather(p)) == multiset(UpdateOrder(p)) + multiset(Occupants(p.obj))
  {
    NoOccupants(EmptySlots(|p.obj|));
    assert [p.player] + Occupants(p.npc) + [] == [p.player] + Occupants(p.npc);
  }

  /** One slot after its occupant's update; an empty slot stays empty. */
  function AdvanceSlot(s: Slot, advance: Entity -> Entity): Slot {
    match s
    case Empty => Empty
    case Holds(e) => Holds(advance(e))
  }

  function AdvanceSlots(slots: seq<Slot>, advance: Entity -> Entity): (r: seq<Slot>)
    ensures |r| == |slots|
    ensures forall i :: 0 <= i < |slots| ==> r[i] == AdvanceSlot(slots[i], advance)
  {
    seq(|slots|, i requires 0 <= i < |slots| => AdvanceSlot(slots[i], advance))
  }

  /** The panel after an update pass in which every entity's update has
      the effect `advance`. */
  function AdvanceAll(p: Panel, advance: Entity -> Entity): (q: Panel)
    ensures q.obj == p.obj && q.entityList == p.entityList && q.gameState == p.gameState
    ensures |q.npc| == |p.npc| && |q.enemy| == |p.enemy|
    ensures HasCapacities(p) ==> HasCapacities(q)
    ensures forall i :: 0 <= i < |p.npc| ==> q.npc[i].Holds? == p.npc[i].Holds?
    ensures forall i :: 0 <= i < |p.enemy| ==> q.enemy[i].Holds? == p.enemy[i].Holds?
  {
    p.(player := advance(p.player),
       npc := AdvanceSlots(p.npc, advance),
       enemy := AdvanceSlots(p.enemy, advance))
  }

  lemma AdvanceSlotsSnoc(slots: seq<Slot>, s: Slot, advance: Entity -> Entity)
    ensures AdvanceSlots(slots + [s], advance) == AdvanceSlots(slots, advance) + [AdvanceSlot(s, advance)]
  {
  }

  lemma IdsSnoc(es: seq<Entity>, tail: seq<Entity>)
    ensures Ids(es + tail) == Ids(es) + Ids(tail)
  {
  }

  /** Updates the occupant of every occupied slot, in ascending index,
      recording whose update ran: one of the update pass's loops. */
  method UpdateSlots(slots: seq<Slot>, advance: Entity -> Entity) returns (updated: seq<Slot>, ids: seq<nat>)
    ensures updated == AdvanceSlots(slots, advance)
    ensures ids == Ids(Occupants(slots))
  {
    updated := [];
    ids := [];
    var i := 0;
    while i < |slots|
      invariant 0 <= i <= |slots|
      invariant updated == AdvanceSlots(slots[..i], advance)
      invariant ids == Ids(Occupants(slots[..i]))
    {
      assert slots[..i + 1] == slots[..i] + [slots[i]];
      OccupantsSnoc(slots[..i], slots[i]);
      AdvanceSlotsSnoc(slots[..i], slots[i], advance);
      IdsSnoc(Occupants(slots[..i]), if slots[i].Holds? then [slots[i].entity] else []);
      if slots[i].Holds? {
        ids := ids + [slots[i].entity.id];
      }
      updated := updated + [AdvanceSlot(slots[i], advance)];
      i := i + 1;
    }
    assert slots[..|slots|] == slots;
  }

  /** The update pass as the panel runs it: the player, then every
      occupied NPC slot, then every occupied enemy slot. */
  method Update(p: Panel, advance: Entity -> Entity) returns (q: Panel, trace: seq<nat>)
    ensures trace == UpdateTrace(p)
    ensures q == AdvanceAll(p, advance)
  {
    var player := advance(p.player);
    var npc, npcIds := UpdateSlots(p.npc, advance);
    var enemy, enemyIds := UpdateSlots(p.enemy, advance);
    trace := [p.player.id] + npcIds + enemyIds;
    q := p.(player := player, npc := npc, enemy := enemy);
    assert Ids(UpdateOrder(p)) == [p.player.id] + Ids(Occupants(p.npc)) + Ids(Occupants(p.enemy));
  }

  // ----- Ticks -----

  /** One tick of the loop: the update pass, then one repaint serving the
      repaint request the loop makes after it. */
  function Tick(p: Panel, advance: Entity -> Entity): (f: Frame)
    ensures f.panel.entityList == []
    ensures f.panel.obj == p.obj && f.panel.gameState == p.gameState
    ensures |f.panel.npc| == |p.npc| && |f.panel.enemy| == |p.enemy|
  {
    Paint(AdvanceAll(p, advance))
  }

  /** A panel between frames: its slot arrays at their capacities and its
      frame list empty. */
  predicate Ready(p: Panel) {
    HasCapacities(p) && p.entityList == []
  }

  /** The panel a tick leaves behind: updated, with its frame list
      cleared. */
  function PanelAfterTick(p: Panel, advance: Entity -> Entity): (q: Panel)
    ensures Ready(p) ==> Ready(q)
  {
    AdvanceAll(p, advance).(entityList := [])
  }

  lemma TickLeavesPanel(p: Panel, advance: Entity -> Entity)
    ensures Tick(p, advance).panel == PanelAfterTick(p, advance)
  {
  }

  /** The panel after `k` ticks. */
  function StateAfter(p: Panel, advance: Entity -> Entity, k: nat): Panel
    decreases k
  {
    if k == 0 then p else PanelAfterTick(StateAfter(p, advance, k - 1), advance)
  }

  /** What the tick numbered `k` (from 0) draws. */
  function FrameAt(p: Panel, advance: Entity -> Entity, k: nat): seq<Entity> {
    Tick(StateAfter(p, advance, k), advance).drawn
  }

  /** A frame's drawing sequence as the pipeline guarantees it: at least
      the player, at most every slot's occupant, in world-Y order. */
  predicate WellDrawn(drawn: seq<Entity>) {
    1 <= |drawn| <= 41 && SortedByY(drawn)
  }

  /** One tick from a panel between frames draws a well-formed frame and
      leaves a panel between frames. */
  lemma TickDrawsBoundedFrame(p: Panel, advance: Entity -> Entity)
    requires Ready(p)
    ensures Ready(Tick(p, advance).panel)
    ensures WellDrawn(Tick(p, advance).drawn)
  {
    var q := AdvanceAll(p, advance);
    GatherSizeBounds(q);
    assert q.entityList + Gather(q) == Gather(q);
  }

  /** Every tick leaves a panel between frames. */
  lemma {:induction false} StaysReady(p: Panel, advance: Entity -> Entity, k: nat)
    requires Ready(p)
    ensures Ready(StateAfter(p, advance, k))
    decreases k
  {
    if k > 0 {
      StaysReady(p, advance, k - 1);
    }
  }

  /** No cross-frame leakage: from a panel whose frame list is empty, the
      panel is again between frames before every later tick, each tick's
      panel is the one the previous tick left, and the tick numbered `k`
      draws between 1 and 41 entities in world-Y order, however many ticks
      came before it. */
  lemma FramesNeverAccumulate(p: Panel, advance: Entity -> Entity, k: nat)
    requires Ready(p)
    ensures Ready(StateAfter(p, advance, k))
    ensures k > 0 ==> StateAfter(p, advance, k) == Tick(StateAfter(p, advance, k - 1), advance).panel
    ensures WellDrawn(FrameAt(p, advance, k))
  {
    StaysReady(p, advance, k);
    TickDrawsBoundedFrame(StateAfter(p, advance, k), advance);
    if k > 0 {
      TickLeavesPanel(StateAfter(p, advance, k - 1), advance);
    }
  }

  /** When updates keep each entity's identity, advancing a slot array
      keeps the ids of its occupants, slot by slot. */
  lemma {:induction false} AdvanceKeepsOccupantIds(slots: seq<Slot>, advance: Entity -> Entity)
    requires forall e :: advance(e).id == e.id
    ensures Ids(Occupants(AdvanceSlots(slots, advance))) == Ids(Occupants(slots))
    decreases |slots|
  {
    if slots != [] {
      var advanced, rest := AdvanceSlots(slots, advance), AdvanceSlots(slots[1..], advance);
      assert advanced[1..] == rest;
      AdvanceKeepsOccupantIds(slots[1..], advance);
      var head := if slots[0].Holds? then [slots[0].entity] else [];
      var head' := if slots[0].Holds? then [advance(slots[0].entity)] else [];
      assert Occupants(advanced) == head' + Occupants(rest);
      assert Occupants(slots) == head + Occupants(slots[1..]);
      assert Ids(head') == Ids(head);
      IdsSnoc(head, Occupants(slots[1..]));
      IdsSnoc(head', Occupants(rest));
    }
  }

  /** When updates keep each entity's identity, one tick leaves the next
      tick's update trace unchanged. */
  lemma TickKeepsUpdateTrace(q: Panel, advance: Entity -> Entity)
    requires forall e :: advance(e).id == e.id
    ensures UpdateTrace(PanelAfterTick(q, advance)) == UpdateTrace(q)
  {
    var r := PanelAfterTick(q, advance);
    AdvanceKeepsOccupantIds(q.npc, advance);
    AdvanceKeepsOccupantIds(q.enemy, advance);
    IdsSnoc([r.player] + Occupants(r.npc), Occupants(r.enemy));
    IdsSnoc([q.player] + Occupants(q.npc), Occupants(q.enemy));
    assert Ids([r.player] + Occupants(r.npc)) == Ids([q.player] + Occupants(q.npc)) by {
      IdsSnoc([r.player], Occupants(r.npc));
      IdsSnoc([q.player], Occupants(q.npc));
    }
  }

  /** Repeated ticks: when updates keep each entity's identity, every tick
      runs the same update trace as the first, so over `n` ticks each live
      player, NPC and enemy is updated exactly `n` times, always in the
      same order. */
  lemma {:induction false} UpdateTraceRepeats(p: Panel, advance: Entity -> Entity, k: nat)
    requires forall e :: advance(e).id == e.id
    ensures UpdateTrace(StateAfter(p, advance, k)) == UpdateTrace(p)
    decreases k
  {
    if k > 0 {
      UpdateTraceRepeats(p, advance, k - 1);
      TickKeepsUpdateTrace(StateAfter(p, advance, k - 1), advance);
    }
  }

  /** One tick from a panel between frames draws exactly the order the
      reference insertion sort gives to the entities gathered after the
      update. */
  lemma {:induction false} TickDrawsSortedGather(q: Panel, advance: Entity -> Entity)
    requires Ready(q)
    ensures Tick(q, advance).drawn == InsertionSortByY(Gather(AdvanceAll(q, advance)))
  {
    var live := Gather(AdvanceAll(q, advance));
    assert AdvanceAll(q, advance).entityList + live == live;
    StableSortsAgree(live);
  }

  /** One tick from a panel between frames draws equal-Y entities in the
      order they were gathered after the update. */
  lemma {:induction false} TickKeepsGatherTieOrder(q: Panel, advance: Entity -> Entity)
    requires Ready(q)
    ensures KeepsTieOrder(Gather(AdvanceAll(q, advance)), Tick(q, advance).drawn)
  {
    var live := Gather(AdvanceAll(q, advance));
    assert AdvanceAll(q, advance).entityList + live == live;
    StableSortKeepsTieOrder(live);
  }

  /** What tick `k` draws is the stable sort, by world Y, of the entities
      gathered after that tick's update: the same order the reference
      insertion sort gives, with equal-Y entities in gather order. */
  lemma {:induction false} FrameIsSortedGather(p: Panel, advance: Entity -> Entity, k: nat)
    requires Ready(p)
    ensures KeepsTieOrder(Gather(AdvanceAll(StateAfter(p, advance, k), advance)), FrameAt(p, advance, k))
    ensures FrameAt(p, advance, k) == InsertionSortByY(Gather(AdvanceAll(StateAfter(p, advance, k), advance)))
    ensures FrameAt(p, advance, k) == StableSortByY(Gather(AdvanceAll(StateAfter(p, advance, k), advance)))
  {
    StaysReady(p, advance, k);
    var live := Gather(AdvanceAll(StateAfter(p, advance, k), advance));
    TickDrawsSortedGather(StateAfter(p, advance, k), advance);
    TickKeepsGatherTieOrder(StateAfter(p, advance, k), advance);
    StableSortsAgree(live);
  }
}
