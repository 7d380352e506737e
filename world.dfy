/**
 * The part of the entity world the core touches: live entities with the
 * component each was spawned with, fresh ids, and the children lists that
 * `push_children` extends.
 */
module Ecs {
  import opened Prelude
  import AdminMenus

  /** What an entity was spawned with. */
  datatype Component =
    | ButtonImage(button: AdminMenus.Button)
    | TileSprite(texture: Handle)
    | OverlaySprite(texture: Handle)
    | TileText(text: string)

  /** The children list of `parent` with `e` removed. */
  function Without(kids: seq<Entity>, e: Entity): (r: seq<Entity>)
    ensures forall x :: x in r <==> x in kids && x != e
    ensures |r| <= |kids|
  {
    if kids == [] then []
    else if kids[0] == e then Without(kids[1..], e)
    else [kids[0]] + Without(kids[1..], e)
  }

  lemma {:induction false} WithoutAbsent(kids: seq<Entity>, e: Entity)
    requires e !in kids
    ensures Without(kids, e) == kids
    decreases kids
  {
    if kids != [] {
      WithoutAbsent(kids[1..], e);
      assert [kids[0]] + kids[1..] == kids;
    }
  }

  class World {
    var live: map<Entity, Component>
    var next: Entity
    var children: map<Entity, seq<Entity>>

    /** Every live entity and every child has an id below the fresh-id counter. */
    ghost predicate Valid()
      reads this
    {
      && (forall e :: e in live ==> e < next)
      && (forall p, c :: p in children && c in children[p] ==> c < next)
    }

    constructor ()
      ensures Valid() && live == map[] && next == 0 && children == map[]
    {
      live := map[];
      next := 0;
      children := map[];
    }

    /** `spawn`: a fresh entity carrying `c`. */
    method Spawn(c: Component) returns (e: Entity)
      requires Valid()
      modifies this
      ensures Valid()
      ensures e == old(next) && e !in old(live) && next == old(next) + 1
      ensures live == old(live)[e := c] && children == old(children)
    {
      e := next;
      live := live[e := c];
      next := next + 1;
    }

    /**
     * `despawn` / `despawn_recursive` of an entity without children: it stops
     * being live and leaves its parent's children list.
     */
    method Despawn(e: Entity)
      requires Valid()
      modifies this
      ensures Valid()
      ensures live == old(live) - {e} && next == old(next)
      ensures children == map p | p in old(children) :: Without(old(children)[p], e)
    {
      live := live - {e};
      children := map p | p in children :: Without(children[p], e);
    }

    /** `push_children`: appends `kids` to the children of `parent`. */
    method PushChildren(parent: Entity, kids: seq<Entity>)
      requires Valid() && forall c :: c in kids ==> c < next
      modifies this
      ensures Valid()
      ensures live == old(live) && next == old(next)
      ensures children == old(children)[parent := (if parent in old(children) then old(children)[parent] else []) + kids]
    {
      var before := if parent in children then children[parent] else [];
      children := children[parent := before + kids];
    }
  }
}
