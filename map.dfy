/**
 * The hex map: each placed hex holds a background sprite, three overlay
 * slots and an optional text, all entities of the world.
 */
module HexMap {
  import opened Prelude
  import opened Identifier
  import opened TextureTree
  import opened Ecs

  /** A hex coordinate of the map grid. */
  datatype Hex = Hex(x: int, y: int)

  /** The three overlay slots of a tile. */
  datatype Overlays = Overlays(location: Option<Entity>, flair: Option<Entity>, marker: Option<Entity>)

  /** `Overlays::default()`: every slot empty. */
  const NoOverlays: Overlays := Overlays(None, None, None)

  datatype MapTile = MapTile(background: Entity, overlay: Overlays, text: Option<Entity>)

  /** The overlay slot an overlay id names. */
  datatype Layer = Marker | Flair | Location

  function LayerName(l: Layer): string
  {
    match l
    case Marker => "marker"
    case Flair => "flair"
    case Location => "location"
  }

  /**
   * The slot `place_overlay` writes: segment 1 of the id (`get(1).unwrap()`),
   * which must be `marker`, `flair` or `location` (`panic!` otherwise).
   */
  function LayerOf(id: Id): (r: Result<Layer>)
  {
    match Get(id, 1)
    case None => Panicked(NoLayerSegment)
    case Some(s) =>
      if s == "marker" then Ok(Marker)
      else if s == "flair" then Ok(Flair)
      else if s == "location" then Ok(Location)
      else Panicked(UnknownLayer)
  }

  /** `LayerOf` reads exactly the layer name at segment 1, and panics for every other id. */
  lemma LayerOfNames(id: Id)
    ensures LayerOf(id).Ok? <==> |id| >= 2 && exists l :: id[1] == LayerName(l)
    ensures LayerOf(id).Ok? ==> id[1] == LayerName(LayerOf(id).value)
    ensures LayerOf(id) == Panicked(NoLayerSegment) <==> |id| < 2
  {
    if |id| >= 2 && exists l :: id[1] == LayerName(l) {
      var l :| id[1] == LayerName(l);
      assert LayerOf(id) == Ok(l);
    }
    if LayerOf(id).Ok? {
      assert id[1] == LayerName(LayerOf(id).value);
    }
  }

  /** An overlay id `["overlay", name, number]` of a layer picks that layer's slot. */
  lemma OverlayIdLayer(l: Layer, number: string)
    ensures LayerOf(["overlay", LayerName(l), number]) == Ok(l)
  {
  }

  function Slot(o: Overlays, l: Layer): Option<Entity>
  {
    match l
    case Marker => o.marker
    case Flair => o.flair
    case Location => o.location
  }

  /** The overlays with one slot set to `e`. */
  function WithLayer(o: Overlays, l: Layer, e: Entity): (r: Overlays)
    ensures Slot(r, l) == Some(e)
    ensures forall other :: other != l ==> Slot(r, other) == Slot(o, other)
  {
    match l
    case Marker => o.(marker := Some(e))
    case Flair => o.(flair := Some(e))
    case Location => o.(location := Some(e))
  }

  /** `texture_tree[&id].leaf().unwrap()`: the handle of the leaf at `id`. */
  function LeafTexture(tree: Node, id: Id): (r: Result<Handle>)
  {
    match Lookup(tree, id)
    case None => Panicked(MissingChild)
    case Some(n) => if n.Leaf? then Ok(n.handle) else Panicked(NotALeaf)
  }

  /** The texture is found exactly at the leaves, and is the leaf's handle. */
  lemma LeafTextureAtLeaves(tree: Node, id: Id)
    ensures LeafTexture(tree, id).Ok? <==> IsLeafAt(tree, id)
    ensures LeafTexture(tree, id).Ok? ==> Lookup(tree, id) == Some(Leaf(LeafTexture(tree, id).value))
    ensures Lookup(tree, id).None? <==> LeafTexture(tree, id) == Panicked(MissingChild)
  {
  }

  /**
   * In a tree built from a prefix-free textures map, every id of the map has
   * its texture: placing a catalog id never panics in the tree lookup.
   */
  lemma LeafTextureOfBuiltTree(m: map<Id, Handle>, order: seq<Id>, id: Id)
    requires EnumeratesKeys(order, m) && PrefixFree(m.Keys) && id in m
    ensures BuildTree(m, order).Ok?
    ensures LeafTexture(BuildTree(m, order).value, id) == Ok(m[id])
  {
    BuildTreeLeaves(m, order);
  }

  /** An optional entity that was spawned before the counter reached `next`. */
  predicate SpawnedBefore(e: Option<Entity>, next: Entity)
  {
    e.None? || e.value < next
  }

  /** Every entity a tile refers to was spawned before the counter reached `next`. */
  predicate TileSpawnedBefore(t: MapTile, next: Entity)
  {
    && t.background < next
    && SpawnedBefore(t.overlay.location, next)
    && SpawnedBefore(t.overlay.flair, next)
    && SpawnedBefore(t.overlay.marker, next)
    && SpawnedBefore(t.text, next)
  }

  /** The `Map` resource: the placed tiles (and the combatants, which no operation here touches). */
  class Map {
    var tiles: map<Hex, MapTile>
    var combatants: seq<Entity>

    /** Every entity the placed tiles refer to was spawned in `world`. */
    ghost predicate SpawnedIn(world: World)
      reads this, world
    {
      forall h :: h in tiles ==> TileSpawnedBefore(tiles[h], world.next)
    }

    constructor ()
      ensures tiles == map[] && combatants == []
      ensures forall world: World :: SpawnedIn(world)
    {
      tiles := map[];
      combatants := [];
    }

    /**
     * `place_tile`: spawns a sprite with the leaf texture at `id` (panicking
     * when there is none), then on an occupied hex despawns the old background
     * and puts the new one in its place, and on an empty hex inserts a tile
     * with no overlays and no text.
     */
    method PlaceTile(world: World, tree: Node, hex: Hex, id: Id) returns (outcome: Result<()>)
      requires world.Valid()
      modifies this, world
      ensures world.Valid() && combatants == old(combatants)
      ensures old(SpawnedIn(world)) ==> SpawnedIn(world)
      ensures outcome.Ok? <==> IsLeafAt(tree, id)
      ensures outcome.Panicked? ==>
        && outcome.reason == LeafTexture(tree, id).reason && tiles == old(tiles)
        && world.live == old(world.live) && world.next == old(world.next) && world.children == old(world.children)
      ensures outcome.Ok? ==> world.next == old(world.next) + 1
      ensures outcome.Ok? && hex in old(tiles) ==>
        && tiles == old(tiles)[hex := old(tiles)[hex].(background := old(world.next))]
        && world.live == old(world.live)[old(world.next) := TileSprite(LeafTexture(tree, id).value)] - {old(tiles)[hex].background}
        && world.children == map p | p in old(world.children) :: Without(old(world.children)[p], old(tiles)[hex].background)
      ensures outcome.Ok? && hex !in old(tiles) ==>
        && tiles == old(tiles)[hex := MapTile(old(world.next), NoOverlays, None)]
        && world.live == old(world.live)[old(world.next) := TileSprite(LeafTexture(tree, id).value)]
        && world.children == old(world.children)
    {
      var node := Index(tree, id);
      if node.Panicked? {
        return Panicked(node.reason);
      }
      var texture := LeafOf(node.value);
      if texture.None? {
        return Panicked(NotALeaf);
      }
      var tile := world.Spawn(TileSprite(texture.value));
      if hex in tiles {
        var previous := tiles[hex].background;
        tiles := tiles[hex := tiles[hex].(background := tile)];
        world.Despawn(previous);
      } else {
        tiles := tiles[hex := MapTile(tile, NoOverlays, None)];
      }
      return Ok(());
    }

    /**
     * `place_overlay`: nothing happens on a hex without a tile; otherwise it
     * spawns a sprite with the leaf texture at `id` and stores it in the slot
     * segment 1 of `id` names, without despawning what the slot held.
     */
    method PlaceOverlay(world: World, tree: Node, hex: Hex, id: Id) returns (outcome: Result<()>)
      requires world.Valid()
      modifies this, world
      ensures world.Valid() && combatants == old(combatants) && world.children == old(world.children)
      ensures old(SpawnedIn(world)) ==> SpawnedIn(world)
      ensures hex !in old(tiles) ==> outcome.Ok? && tiles == old(tiles) && world.live == old(world.live) && world.next == old(world.next)
      ensures hex in old(tiles) ==> (outcome.Ok? <==> IsLeafAt(tree, id) && LayerOf(id).Ok?)
      ensures hex in old(tiles) && !IsLeafAt(tree, id) ==> outcome.reason == LeafTexture(tree, id).reason
      ensures hex in old(tiles) && IsLeafAt(tree, id) && LayerOf(id).Panicked? ==> outcome.reason == LayerOf(id).reason
      ensures outcome.Panicked? ==> tiles == old(tiles)
      ensures outcome.Ok? && hex in old(tiles) ==>
        && world.next == old(world.next) + 1
        && world.live == old(world.live)[old(world.next) := OverlaySprite(LeafTexture(tree, id).value)]
        && tiles == old(tiles)[hex := old(tiles)[hex].(overlay := WithLayer(old(tiles)[hex].overlay, LayerOf(id).value, old(world.next)))]
    {
      if hex !in tiles {
        return Ok(());
      }
      var node := Index(tree, id);
      if node.Panicked? {
        return Panicked(node.reason);
      }
      var texture := LeafOf(node.value);
      if texture.None? {
        return Panicked(NotALeaf);
      }
      var entity := world.Spawn(OverlaySprite(texture.value));
      var layer := LayerOf(id);
      if layer.Panicked? {
        return Panicked(layer.reason);
      }
      var tile := tiles[hex];
      tiles := tiles[hex := tile.(overlay := WithLayer(tile.overlay, layer.value, entity))];
      return Ok(());
    }

    /**
     * `place_text`: nothing happens on a hex without a tile; otherwise it
     * spawns a text entity and stores it as the tile's text, without
     * despawning the previous one.
     */
    method PlaceText(world: World, hex: Hex, text: string)
      requires world.Valid()
      modifies this, world
      ensures world.Valid() && combatants == old(combatants) && world.children == old(world.children)
      ensures old(SpawnedIn(world)) ==> SpawnedIn(world)
      ensures hex !in old(tiles) ==> tiles == old(tiles) && world.live == old(world.live) && world.next == old(world.next)
      ensures hex in old(tiles) ==>
        && world.next == old(world.next) + 1
        && world.live == old(world.live)[old(world.next) := TileText(text)]
        && tiles == old(tiles)[hex := old(tiles)[hex].(text := Some(old(world.next)))]
    {
      if hex !in tiles {
        return;
      }
      var entity := world.Spawn(TileText(text));
      var tile := tiles[hex];
      tiles := tiles[hex := tile.(text := Some(entity))];
    }
  }
}
