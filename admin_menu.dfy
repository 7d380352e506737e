/**
 * `AdminMenu::render`: replaces the admin-bar buttons tracked by the
 * `UITracker` with one fresh entity per button of the menu.
 */
module Render {
  import opened Prelude
  import opened AdminMenus
  import opened Ecs

  /** The UI entities the admin systems keep track of. */
  class UITracker {
    const adminBar: Entity
    const backButton: Entity
    var buttons: seq<Entity>

    /**
     * No button is tracked twice and the admin bar is not a tracked button: the
     * tracked buttons are always fresh spawns, and an `entity_mut` on an entity
     * already despawned would panic.
     */
    ghost predicate Valid()
      reads this
    {
      && (forall i, j :: 0 <= i < j < |buttons| ==> buttons[i] != buttons[j])
      && adminBar !in buttons
    }

    /** `UITracker::new`: no button is tracked yet. */
    constructor (adminBar: Entity, backButton: Entity)
      ensures Valid()
      ensures this.adminBar == adminBar && this.backButton == backButton && buttons == []
    {
      this.adminBar := adminBar;
      this.backButton := backButton;
      buttons := [];
    }
  }

  // ---------------------------------------------------------------------
  // The children lists after a run of despawns.

  /** `kids` without the entities in `gone`, in order. */
  function Keep(kids: seq<Entity>, gone: seq<Entity>): (r: seq<Entity>)
  {
    if kids == [] then []
    else (if kids[0] in gone then [] else [kids[0]]) + Keep(kids[1..], gone)
  }

  /** Every children list with `e` removed: what `despawn_recursive(e)` does to the parents. */
  function Strip(ch: map<Entity, seq<Entity>>, e: Entity): map<Entity, seq<Entity>>
  {
    map p | p in ch :: Without(ch[p], e)
  }

  /** The children lists after despawning each entity of `gone`, in order. */
  function DespawnAll(ch: map<Entity, seq<Entity>>, gone: seq<Entity>): map<Entity, seq<Entity>>
    decreases |gone|
  {
    if gone == [] then ch else Strip(DespawnAll(ch, gone[..|gone| - 1]), gone[|gone| - 1])
  }

  lemma {:induction false} KeepNothing(kids: seq<Entity>)
    ensures Keep(kids, []) == kids
    decreases kids
  {
    if kids != [] {
      KeepNothing(kids[1..]);
      assert [kids[0]] + kids[1..] == kids;
    }
  }

  lemma {:induction false} KeepOneMore(kids: seq<Entity>, gone: seq<Entity>, e: Entity)
    ensures Without(Keep(kids, gone), e) == Keep(kids, gone + [e])
    decreases kids
  {
    if kids != [] {
      KeepOneMore(kids[1..], gone, e);
      var head := if kids[0] in gone then [] else [kids[0]];
      assert Keep(kids, gone) == head + Keep(kids[1..], gone);
      WithoutAppend(head, Keep(kids[1..], gone), e);
    }
  }

  lemma {:induction false} WithoutAppend(a: seq<Entity>, b: seq<Entity>, e: Entity)
    ensures Without(a + b, e) == Without(a, e) + Without(b, e)
    decreases a
  {
    if a != [] {
      WithoutAppend(a[1..], b, e);
      assert (a + b)[1..] == a[1..] + b;
    } else {
      assert a + b == b;
    }
  }

  /** Despawning a run of entities removes exactly them from every children list, keeping the order. */
  lemma {:induction false} DespawnAllKeeps(ch: map<Entity, seq<Entity>>, gone: seq<Entity>)
    ensures DespawnAll(ch, gone).Keys == ch.Keys
    ensures forall p :: p in ch ==> DespawnAll(ch, gone)[p] == Keep(ch[p], gone)
    decreases |gone|
  {
    if gone == [] {
      forall p | p in ch ensures DespawnAll(ch, gone)[p] == Keep(ch[p], gone) { KeepNothing(ch[p]); }
    } else {
      var init := gone[..|gone| - 1];
      var e := gone[|gone| - 1];
      DespawnAllKeeps(ch, init);
      assert init + [e] == gone;
      forall p | p in ch ensures DespawnAll(ch, gone)[p] == Keep(ch[p], gone) {
        KeepOneMore(ch[p], init, e);
      }
    }
  }

  lemma {:induction false} KeepAllGone(kids: seq<Entity>, gone: seq<Entity>)
    requires forall x :: x in kids ==> x in gone
    ensures Keep(kids, gone) == []
    decreases kids
  {
    if kids != [] {
      KeepAllGone(kids[1..], gone);
    }
  }

  /**
   * When the admin bar holds the back button followed by the tracked buttons,
   * after the despawns and `push_children` it holds the back button followed
   * by the new buttons: the back button is never despawned.
   */
  lemma BarAfterRender(ch: map<Entity, seq<Entity>>, bar: Entity, back: Entity, old_buttons: seq<Entity>, new_buttons: seq<Entity>)
    requires bar in ch && ch[bar] == [back] + old_buttons && back !in old_buttons
    ensures bar in DespawnAll(ch, old_buttons)
    ensures DespawnAll(ch, old_buttons)[bar] + new_buttons == [back] + new_buttons
  {
    DespawnAllKeeps(ch, old_buttons);
    KeepAllGone(old_buttons, old_buttons);
    assert ([back] + old_buttons)[1..] == old_buttons;
    assert Keep([back] + old_buttons, old_buttons) == [back] + Keep(old_buttons, old_buttons);
  }

  /** The strip of one more despawn, as the loop takes it. */
  lemma DespawnAllStep(ch: map<Entity, seq<Entity>>, gone: seq<Entity>, i: nat)
    requires i < |gone|
    ensures DespawnAll(ch, gone[..i + 1]) == Strip(DespawnAll(ch, gone[..i]), gone[i])
  {
    assert gone[..i + 1][..i] == gone[..i];
  }

  /** What one more step of a prefix adds to it. */
  lemma PrefixSnoc(s: seq<Entity>, i: nat)
    requires i < |s|
    ensures forall e :: e in s[..i + 1] <==> e in s[..i] || e == s[i]
  {
    assert s[..i + 1] == s[..i] + [s[i]];
  }

  // ---------------------------------------------------------------------
  // The render.

  /**
   * `AdminMenu::render`: despawns every tracked button, spawns one image
   * entity per menu button in order, attaches them to the admin bar and
   * tracks them instead.
   */
  method Render(menu: Menu, world: World, ui: UITracker)
    requires world.Valid() && ui.Valid()
    requires forall e :: e in ui.buttons ==> e in world.live
    requires ui.adminBar in world.live
    modifies world, ui
    ensures world.Valid() && ui.Valid() && ui.adminBar in world.live
    ensures |ui.buttons| == |menu.buttons|
    ensures forall j :: 0 <= j < |ui.buttons| ==> ui.buttons[j] == old(world.next) + j
    ensures world.next == old(world.next) + |menu.buttons|
    ensures forall j :: 0 <= j < |ui.buttons| ==> ui.buttons[j] in world.live && world.live[ui.buttons[j]] == ButtonImage(menu.buttons[j])
    ensures forall e :: e in world.live <==> (e in old(world.live) && e !in old(ui.buttons)) || e in ui.buttons
    ensures forall e :: e in old(world.live) && e !in old(ui.buttons) ==> world.live[e] == old(world.live)[e]
    ensures var ch := DespawnAll(old(world.children), old(ui.buttons));
      world.children == ch[ui.adminBar := (if ui.adminBar in ch then ch[ui.adminBar] else []) + ui.buttons]
  {
    var tracked := ui.buttons;
    DespawnTracked(world, tracked);
    var spawned := SpawnButtons(world, menu);
    world.PushChildren(ui.adminBar, spawned);
    ui.buttons := spawned;
  }

  /** The `despawn_recursive` loop over the tracked buttons. */
  method DespawnTracked(world: World, tracked: seq<Entity>)
    requires world.Valid()
    modifies world
    ensures world.Valid() && world.next == old(world.next)
    ensures forall e :: e in world.live <==> e in old(world.live) && e !in tracked
    ensures forall e :: e in world.live ==> world.live[e] == old(world.live)[e]
    ensures world.children == DespawnAll(old(world.children), tracked)
  {
    var i := 0;
    while i < |tracked|
      invariant 0 <= i <= |tracked|
      invariant world.Valid() && world.next == old(world.next)
      invariant forall e :: e in world.live <==> e in old(world.live) && e !in tracked[..i]
      invariant forall e :: e in world.live ==> world.live[e] == old(world.live)[e]
      invariant world.children == DespawnAll(old(world.children), tracked[..i])
    {
      DespawnAllStep(old(world.children), tracked, i);
      PrefixSnoc(tracked, i);
      world.Despawn(tracked[i]);
      i := i + 1;
    }
    assert tracked[..i] == tracked;
  }

  /** The spawn loop: one fresh image entity per menu button, in order. */
  method SpawnButtons(world: World, menu: Menu) returns (spawned: seq<Entity>)
    requires world.Valid()
    modifies world
    ensures world.Valid()
    ensures |spawned| == |menu.buttons| && world.next == old(world.next) + |menu.buttons|
    ensures forall j :: 0 <= j < |spawned| ==> spawned[j] == old(world.next) + j
    ensures forall j :: 0 <= j < |spawned| ==> spawned[j] in world.live && world.live[spawned[j]] == ButtonImage(menu.buttons[j])
    ensures forall e :: e in world.live <==> e in old(world.live) || e in spawned
    ensures forall e :: e in old(world.live) ==> world.live[e] == old(world.live)[e]
    ensures world.children == old(world.children)
  {
    spawned := [];
    var k := 0;
    while k < |menu.buttons|
      invariant 0 <= k <= |menu.buttons|
      invariant world.Valid()
      invariant |spawned| == k && world.next == old(world.next) + k
      invariant forall j :: 0 <= j < k ==> spawned[j] == old(world.next) + j
      invariant forall j :: 0 <= j < k ==> spawned[j] in world.live && world.live[spawned[j]] == ButtonImage(menu.buttons[j])
      invariant forall e :: e in world.live <==> e in old(world.live) || e in spawned
      invariant forall e :: e in old(world.live) ==> world.live[e] == old(world.live)[e]
      invariant world.children == old(world.children)
    {
      var e := world.Spawn(ButtonImage(menu.buttons[k]));
      spawned := spawned + [e];
      k := k + 1;
    }
  }
}
