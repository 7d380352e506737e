/**
 * The admin menus: one menu per branch of the texture tree, derived by a
 * post-order walk (`recursive_helper`), and the breadcrumb navigation of
 * `handle_admin`.
 */
module AdminMenus {
  import opened Prelude
  import opened Identifier
  import opened TextureTree

  /** What pressing a button does to the breadcrumb (the boxed `on_click` closure). */
  datatype Action = Descend(name: string) | Stay | Back

  /** `on_click(id)`: a branch child's button extends, a leaf child's button stays, the back button takes `init`. */
  function OnClick(a: Action, id: Id): (r: Id)
  {
    match a
    case Descend(name) => Extend(id, name)
    case Stay => id
    case Back => Init(id)
  }

  /** Back undoes a descent, and is a no-op at the root. */
  lemma BackUndoesDescend(id: Id, name: string)
    ensures OnClick(Back, OnClick(Descend(name), id)) == id
    ensures OnClick(Back, Root) == Root
    ensures OnClick(Descend(name), id) != id
  {
    InitExtend(id, name);
  }

  /** An admin button: its texture, its name and what pressing it does. */
  datatype Button = Button(texture: Handle, name: string, onClick: Action)

  datatype Menu = Menu(buttons: seq<Button>)

  // ---------------------------------------------------------------------
  // What `recursive_helper` computes.

  /**
   * The texture `recursive_helper` returns for a node: a leaf's own handle, a
   * branch's first button's texture, `None` for a branch without buttons.
   */
  function Representative(n: Node): Option<Handle>
    decreases n
  {
    match n
    case Leaf(h) => Some(h)
    case Branch(es) =>
      var buttons := Buttons(es);
      if buttons == [] then None else Some(buttons[0].texture)
  }

  /** The button a child gets: only a child whose subtree yields a texture has one. */
  function ButtonOf(e: Entry): Option<Button>
    decreases e, 0
  {
    match Representative(e.node)
    case None => None
    case Some(h) => Some(Button(h, e.name, if e.node.Leaf? then Stay else Descend(e.name)))
  }

  /** The buttons of a branch, one per child that yields a texture, in key order. */
  function Buttons(es: seq<Entry>): seq<Button>
    decreases es
  {
    if es == [] then []
    else
      var last := es[|es| - 1];
      Buttons(es[..|es| - 1]) + (match ButtonOf(last) case None => [] case Some(b) => [b])
  }

  /** The menus `recursive_helper(n, id)` records: one per branch below `id`, none for a leaf. */
  function Menus(n: Node, id: Id): map<Id, Menu>
    decreases n
  {
    match n
    case Leaf(_) => map[]
    case Branch(es) => ChildMenus(es, id)[id := Menu(Buttons(es))]
  }

  /** The menus the children of a branch at `id` record, child after child. */
  function ChildMenus(es: seq<Entry>, id: Id): map<Id, Menu>
    decreases es
  {
    if es == [] then map[]
    else
      var last := es[|es| - 1];
      ChildMenus(es[..|es| - 1], id) + Menus(last.node, Extend(id, last.name))
  }

  /** The menu that belongs to a branch node. */
  function MenuOf(n: Node): Menu
  {
    if n.Branch? then Menu(Buttons(n.entries)) else Menu([])
  }

  // ---------------------------------------------------------------------
  // Properties of the derived menus.

  /** Some subtree position holds a leaf. */
  ghost predicate HasLeaf(n: Node)
  {
    match n
    case Leaf(_) => true
    case Branch(es) => exists i :: 0 <= i < |es| && HasLeaf(es[i].node)
  }

  /** The buttons are exactly the children that yield a texture, in order. */
  lemma ButtonsExact(es: seq<Entry>)
    ensures forall j :: 0 <= j < |Buttons(es)| ==> exists i :: 0 <= i < |es| && ButtonOf(es[i]) == Some(Buttons(es)[j])
    ensures forall i :: 0 <= i < |es| && ButtonOf(es[i]).Some? ==> ButtonOf(es[i]).value in Buttons(es)
    ensures |Buttons(es)| <= |es|
  {
    ButtonsFromChildren(es);
    ChildrenHaveButtons(es);
  }

  /**
   * A button stands for a child: it carries the child's name and the texture
   * the child's subtree yields, and pressing it at `id` stays at `id` for a
   * leaf child and descends into the child for a branch child.
   */
  ghost predicate ButtonMeans(b: Button, e: Entry, id: Id)
  {
    && b.name == e.name
    && Representative(e.node) == Some(b.texture)
    && OnClick(b.onClick, id) == (if e.node.Leaf? then id else Extend(id, e.name))
  }

  /** Every button of a branch's menu stands for one of its children, as `ButtonMeans` says. */
  lemma ButtonsMeaning(es: seq<Entry>, id: Id)
    ensures forall j :: 0 <= j < |Buttons(es)| ==> exists i :: 0 <= i < |es| && ButtonMeans(Buttons(es)[j], es[i], id)
  {
    ButtonsFromChildren(es);
    forall j | 0 <= j < |Buttons(es)| ensures exists i :: 0 <= i < |es| && ButtonMeans(Buttons(es)[j], es[i], id) {
      var i :| 0 <= i < |es| && ButtonOf(es[i]) == Some(Buttons(es)[j]);
      assert ButtonMeans(Buttons(es)[j], es[i], id);
    }
  }

  /** Each button is the button of some child, and there are no more buttons than children. */
  lemma {:induction false} ButtonsFromChildren(es: seq<Entry>)
    ensures forall j :: 0 <= j < |Buttons(es)| ==> exists i :: 0 <= i < |es| && ButtonOf(es[i]) == Some(Buttons(es)[j])
    ensures |Buttons(es)| <= |es|
    decreases es
  {
    if es == [] {
      assert Buttons(es) == [];
    } else {
      var init := es[..|es| - 1];
      ButtonsFromChildren(init);
      var bs, bi := Buttons(es), Buttons(init);
      assert bs[..|bi|] == bi;
      forall j | 0 <= j < |bs| ensures exists i :: 0 <= i < |es| && ButtonOf(es[i]) == Some(bs[j]) {
        if j < |bi| {
          assert bs[j] == bi[j];
          var i :| 0 <= i < |init| && ButtonOf(init[i]) == Some(bi[j]);
          assert es[i] == init[i];
        } else {
          assert ButtonOf(es[|es| - 1]) == Some(bs[j]);
        }
      }
    }
  }

  /** Every child that yields a texture has its button in the menu. */
  lemma {:induction false} ChildrenHaveButtons(es: seq<Entry>)
    ensures forall i :: 0 <= i < |es| && ButtonOf(es[i]).Some? ==> ButtonOf(es[i]).value in Buttons(es)
    decreases es
  {
    if es != [] {
      var init := es[..|es| - 1];
      ChildrenHaveButtons(init);
      var bs, bi := Buttons(es), Buttons(init);
      assert bs[..|bi|] == bi;
      forall i | 0 <= i < |es| && ButtonOf(es[i]).Some? ensures ButtonOf(es[i]).value in bs {
        if i < |init| {
          assert es[i] == init[i];
          assert ButtonOf(es[i]).value in bi;
        }
      }
    }
  }

  /** In a sorted branch the buttons' names are strictly increasing: the menu keeps key order. */
  lemma {:induction false} ButtonsInKeyOrder(es: seq<Entry>)
    requires Sorted(es)
    ensures forall j, k :: 0 <= j < k < |Buttons(es)| ==> StrLess(Buttons(es)[j].name, Buttons(es)[k].name)
    ensures forall j :: 0 <= j < |Buttons(es)| ==> exists i :: 0 <= i < |es| && es[i].name == Buttons(es)[j].name
    decreases es
  {
    if es == [] {
      assert Buttons(es) == [];
    } else {
      var init := es[..|es| - 1];
      var last := es[|es| - 1];
      ButtonsInKeyOrder(init);
      var bs := Buttons(es);
      assert forall j :: 0 <= j < |Buttons(init)| ==> bs[j] == Buttons(init)[j];
      assert forall j :: |Buttons(init)| <= j < |bs| ==> j == |Buttons(init)| && bs[j] == ButtonOf(last).value && bs[j].name == last.name;
      forall j | 0 <= j < |bs| ensures exists i :: 0 <= i < |es| && es[i].name == bs[j].name {
        if j < |Buttons(init)| {
          var i :| 0 <= i < |init| && init[i].name == Buttons(init)[j].name;
          assert es[i] == init[i];
        } else {
          assert es[|es| - 1].name == bs[j].name;
        }
      }
      forall j, k | 0 <= j < k < |bs| ensures StrLess(bs[j].name, bs[k].name) {
        if k >= |Buttons(init)| {
          var i :| 0 <= i < |init| && init[i].name == Buttons(init)[j].name;
          assert es[i] == init[i];
        }
      }
    }
  }

  /** `recursive_helper` yields a texture exactly when the subtree holds a leaf. */
  lemma {:induction false} RepresentativeIffLeaf(n: Node)
    ensures Representative(n).Some? <==> HasLeaf(n)
    decreases n, 1
  {
    match n
    case Leaf(_) =>
    case Branch(es) =>
      ButtonsExact(es);
      if HasLeaf(n) {
        var i :| 0 <= i < |es| && HasLeaf(es[i].node);
        RepresentativeIffLeaf(es[i].node);
        assert ButtonOf(es[i]).value in Buttons(es);
      }
      if Representative(n).Some? {
        var i :| 0 <= i < |es| && ButtonOf(es[i]) == Some(Buttons(es)[0]);
        RepresentativeIffLeaf(es[i].node);
      }
  }

  /** The texture a well-formed subtree yields is the handle of one of its leaves. */
  lemma {:induction false} RepresentativeIsALeaf(n: Node)
    requires Wf(n) && Representative(n).Some?
    ensures exists p :: Lookup(n, p) == Some(Leaf(Representative(n).value))
    decreases n
  {
    match n
    case Leaf(h) =>
      assert Lookup(n, []) == Some(Leaf(h));
    case Branch(es) =>
      ButtonsExact(es);
      var i :| 0 <= i < |es| && ButtonOf(es[i]) == Some(Buttons(es)[0]);
      RepresentativeIsALeaf(es[i].node);
      var p :| Lookup(es[i].node, p) == Some(Leaf(Representative(es[i].node).value));
      SortedUniqueGet(es, i);
      assert ([es[i].name] + p)[1..] == p;
      assert Lookup(n, [es[i].name] + p) == Some(Leaf(Representative(n).value));
  }

  /**
   * The menus recorded for a well-formed node at `id` are keyed exactly by the
   * ids of its branches, and each holds the menu of its branch.
   */
  lemma {:induction false} MenusCorrect(n: Node, id: Id)
    requires Wf(n)
    ensures forall k :: k in Menus(n, id) ==> id <= k
    ensures forall p :: id + p in Menus(n, id) <==> IsBranchAt(n, p)
    ensures forall p :: IsBranchAt(n, p) ==> Menus(n, id)[id + p] == MenuOf(Lookup(n, p).value)
    decreases n, 1
  {
    match n
    case Leaf(_) =>
      forall p ensures !IsBranchAt(n, p) {
        if p != [] { assert GetBranch(n, p[0]).None?; }
      }
    case Branch(es) =>
      ChildMenusKeys(es, id);
      forall p ensures (id + p in Menus(n, id) <==> IsBranchAt(n, p))
        && (IsBranchAt(n, p) ==> Menus(n, id)[id + p] == MenuOf(Lookup(n, p).value))
      {
        BranchMenusAt(n, id, p);
      }
  }

  /** The menus recorded for a well-formed branch at `id`, at one path `p` below it. */
  lemma {:induction false} BranchMenusAt(n: Node, id: Id, p: Id)
    requires Wf(n) && n.Branch?
    ensures id + p in Menus(n, id) <==> IsBranchAt(n, p)
    ensures IsBranchAt(n, p) ==> Menus(n, id)[id + p] == MenuOf(Lookup(n, p).value)
    decreases n, 0
  {
    var es := n.entries;
    if p == [] {
      assert id + p == id;
    } else {
      var name := p[0];
      var q := p[1..];
      assert id + p == Extend(id, name) + q;
      assert |id + p| > |id|;
      if i :| 0 <= i < |es| && es[i].name == name {
        SortedUniqueGet(es, i);
        ChildMenusAt(es, id, i, q);
        assert Lookup(n, p) == Lookup(es[i].node, q);
      } else {
        ChildMenusKeys(es, id);
        assert GetBranch(n, name).None?;
        assert (id + p)[|id|] == name;
      }
    }
  }

  /** The children's menus: for child `i`, exactly the branch ids below `id + [name]`. */
  lemma ChildMenusCorrect(es: seq<Entry>, id: Id)
    requires Sorted(es) && forall i :: 0 <= i < |es| ==> Wf(es[i].node)
    ensures forall k :: k in ChildMenus(es, id) ==>
      |id| < |k| && k[..|id|] == id && exists i :: 0 <= i < |es| && es[i].name == k[|id|]
    ensures forall i, q :: 0 <= i < |es| ==>
      (Extend(id, es[i].name) + q in ChildMenus(es, id) <==> IsBranchAt(es[i].node, q))
    ensures forall i, q :: 0 <= i < |es| && IsBranchAt(es[i].node, q) ==>
      ChildMenus(es, id)[Extend(id, es[i].name) + q] == MenuOf(Lookup(es[i].node, q).value)
    decreases es, 1
  {
    ChildMenusKeys(es, id);
    forall i, q | 0 <= i < |es|
      ensures Extend(id, es[i].name) + q in ChildMenus(es, id) <==> IsBranchAt(es[i].node, q)
      ensures IsBranchAt(es[i].node, q) ==> ChildMenus(es, id)[Extend(id, es[i].name) + q] == MenuOf(Lookup(es[i].node, q).value)
    {
      ChildMenusAt(es, id, i, q);
    }
  }

  /** Every id the children record lies strictly below `id`, through one of the children's names. */
  lemma {:induction false} ChildMenusKeys(es: seq<Entry>, id: Id)
    requires forall i :: 0 <= i < |es| ==> Wf(es[i].node)
    ensures forall k :: k in ChildMenus(es, id) ==>
      |id| < |k| && k[..|id|] == id && exists i :: 0 <= i < |es| && es[i].name == k[|id|]
    decreases es, 0
  {
    if es == [] {
      assert ChildMenus(es, id) == map[];
    } else {
      var init := es[..|es| - 1];
      var last := es[|es| - 1];
      var x := Extend(id, last.name);
      ChildMenusKeys(init, id);
      MenusCorrect(last.node, x);
      var before := ChildMenus(init, id);
      var mine := Menus(last.node, x);
      assert ChildMenus(es, id) == before + mine;
      forall k | k in ChildMenus(es, id)
        ensures |id| < |k| && k[..|id|] == id && exists i :: 0 <= i < |es| && es[i].name == k[|id|]
      {
        if k in mine {
          assert x <= k;
          assert es[|es| - 1].name == k[|id|];
        } else {
          var j :| 0 <= j < |init| && init[j].name == k[|id|];
          assert es[j] == init[j];
        }
      }
    }
  }

  /** The children's menus at one child `i` and one path `q` below it. */
  lemma {:induction false} ChildMenusAt(es: seq<Entry>, id: Id, i: nat, q: Id)
    requires Sorted(es) && forall j :: 0 <= j < |es| ==> Wf(es[j].node)
    requires i < |es|
    ensures Extend(id, es[i].name) + q in ChildMenus(es, id) <==> IsBranchAt(es[i].node, q)
    ensures IsBranchAt(es[i].node, q) ==> ChildMenus(es, id)[Extend(id, es[i].name) + q] == MenuOf(Lookup(es[i].node, q).value)
    decreases es, 0
  {
    var init := es[..|es| - 1];
    var last := es[|es| - 1];
    var x := Extend(id, last.name);
    var before := ChildMenus(init, id);
    var mine := Menus(last.node, x);
    assert ChildMenus(es, id) == before + mine;
    var k := Extend(id, es[i].name) + q;
    assert |k| > |id| && k[|id|] == es[i].name;
    MenusCorrect(last.node, x);
    StrLessIrreflexive(last.name);
    if i < |init| {
      assert es[i] == init[i];
      ChildMenusAt(init, id, i, q);
      forall k' | k' in mine ensures k'[|id|] == last.name {
        assert x <= k';
      }
      assert es[i].name != last.name;
    } else {
      assert k == x + q;
      ChildMenusKeys(init, id);
      assert forall j :: 0 <= j < |init| ==> init[j].name != k[|id|] by {
        forall j | 0 <= j < |init| ensures init[j].name != k[|id|] {
          assert init[j] == es[j];
        }
      }
    }
  }

  /** The root menu exists exactly when the tree's root is a branch, and is the root's menu. */
  lemma RootMenuOfTree(tree: Node)
    requires Wf(tree)
    ensures Root in Menus(tree, Root) <==> tree.Branch?
    ensures tree.Branch? ==> Menus(tree, Root)[Root] == MenuOf(tree)
  {
    MenusCorrect(tree, Root);
    assert Root + Root == Root;
    assert Lookup(tree, Root) == Some(tree);
  }

  /** The menus of the whole tree at one path `p`: present exactly at branches, with the branch's menu. */
  lemma MenusAt(tree: Node, p: Id)
    requires Wf(tree)
    ensures p in Menus(tree, Root) <==> IsBranchAt(tree, p)
    ensures IsBranchAt(tree, p) ==> Menus(tree, Root)[p] == MenuOf(Lookup(tree, p).value)
  {
    MenusCorrect(tree, Root);
    assert Root + p == p;
  }

  /** Back from a breadcrumb with a menu leads to a breadcrumb with a menu. */
  lemma BackStaysInMenus(tree: Node, p: Id)
    requires Wf(tree) && p in Menus(tree, Root)
    ensures Init(p) in Menus(tree, Root)
  {
    MenusAt(tree, p);
    MenusAt(tree, Init(p));
    if p != [] {
      assert Init(p) < p;
      PrefixesAreBranches(tree, Init(p), p);
    }
  }

  /** Pressing a branch child's button of a menu leads to that child's menu. */
  lemma DescendStaysInMenus(tree: Node, p: Id, b: Button)
    requires Wf(tree) && p in Menus(tree, Root)
    requires b in Menus(tree, Root)[p].buttons && b.onClick.Descend?
    ensures Extend(p, b.onClick.name) in Menus(tree, Root)
  {
    MenusAt(tree, p);
    var name := b.onClick.name;
    var node := Lookup(tree, p).value;
    var es := node.entries;
    ButtonsExact(es);
    var i :| 0 <= i < |es| && ButtonOf(es[i]) == Some(b);
    assert es[i].name == name && es[i].node.Branch?;
    LookupWf(tree, p);
    SortedUniqueGet(es, i);
    LookupAppend(tree, p, [name]);
    assert Lookup(node, [name]) == Some(es[i].node);
    MenusAt(tree, p + [name]);
  }

  /**
   * From a breadcrumb that has a menu, pressing back or any button of that
   * menu leads to a breadcrumb that has a menu too: navigation never reaches
   * the `unwrap` on a missing menu.
   */
  lemma NavigationStaysInMenus(tree: Node, p: Id, a: Action)
    requires Wf(tree) && p in Menus(tree, Root)
    requires a == Back || exists b :: b in Menus(tree, Root)[p].buttons && b.onClick == a
    ensures OnClick(a, p) in Menus(tree, Root)
  {
    match a
    case Back =>
      BackStaysInMenus(tree, p);
    case Stay =>
    case Descend(name) =>
      var b :| b in Menus(tree, Root)[p].buttons && b.onClick == a;
      DescendStaysInMenus(tree, p, b);
  }

  // ---------------------------------------------------------------------
  // The resources, as the systems change them.

  /** `(a + b) + c` and `a + (b + c)` agree: insertions into a map compose. */
  lemma UnionAssociative(a: map<Id, Menu>, b: map<Id, Menu>, c: map<Id, Menu>)
    ensures (a + b) + c == a + (b + c)
  {
  }

  /** One more child's button: present exactly when the child yields a texture. */
  lemma ButtonsSnoc(es: seq<Entry>, i: nat)
    requires i < |es|
    ensures ButtonOf(es[i]).None? ==> Buttons(es[..i + 1]) == Buttons(es[..i])
    ensures ButtonOf(es[i]).Some? ==> Buttons(es[..i + 1]) == Buttons(es[..i]) + [ButtonOf(es[i]).value]
  {
    assert es[..i + 1][..i] == es[..i];
  }

  /** One more child's menus, added after those of the children before it. */
  lemma ChildMenusSnoc(es: seq<Entry>, i: nat, id: Id, base: map<Id, Menu>)
    requires i < |es|
    ensures base + ChildMenus(es[..i + 1], id)
      == (base + ChildMenus(es[..i], id)) + Menus(es[i].node, Extend(id, es[i].name))
  {
    assert es[..i + 1][..i] == es[..i];
    UnionAssociative(base, ChildMenus(es[..i], id), Menus(es[i].node, Extend(id, es[i].name)));
  }

  /** A branch's menus: its children's, then its own menu under its own id. */
  lemma BranchMenus(es: seq<Entry>, id: Id, base: map<Id, Menu>)
    ensures (base + ChildMenus(es, id))[id := Menu(Buttons(es))] == base + Menus(Branch(es), id)
  {
  }

  /** `AdminMenus`: the map `recursive_helper` fills, keyed by branch id. */
  class MenuTable {
    var menus: map<Id, Menu>

    /** `AdminMenus::from_world`: the menus of the whole texture tree, from the root id. */
    constructor FromTree(tree: Node)
      ensures menus == Menus(tree, Root)
    {
      menus := map[];
      new;
      var _ := RecursiveHelper(tree, Root);
      assert map[] + Menus(tree, Root) == Menus(tree, Root);
    }

    /**
     * `recursive_helper`: post-order walk that records a menu for each branch
     * and returns the texture that stands for the node in its parent's menu.
     */
    method RecursiveHelper(node: Node, id: Id) returns (texture: Option<Handle>)
      modifies this
      ensures texture == Representative(node)
      ensures menus == old(menus) + Menus(node, id)
      decreases node
    {
      match node
      case Leaf(h) =>
        assert old(menus) + map[] == menus;
        return Some(h);
      case Branch(es) =>
        var buttons: seq<Button> := [];
        var i := 0;
        while i < |es|
          invariant 0 <= i <= |es|
          invariant buttons == Buttons(es[..i])
          invariant menus == old(menus) + ChildMenus(es[..i], id)
        {
          var name := es[i].name;
          var child := es[i].node;
          var isLeaf := child.Leaf?;
          var t := RecursiveHelper(child, Extend(id, name));
          ButtonsSnoc(es, i);
          ChildMenusSnoc(es, i, id, old(menus));
          if t.Some? {
            buttons := buttons + [Button(t.value, name, if !isLeaf then Descend(name) else Stay)];
          }
          i := i + 1;
        }
        assert es[..i] == es;
        var first := if buttons == [] then None else Some(buttons[0].texture);
        menus := menus[id := Menu(buttons)];
        BranchMenus(es, id, old(menus));
        return first;
    }
  }

  /** `CurrentAdminMenu::from_world`: the root's menu; a missing one panics (`unwrap`). */
  function CurrentFromWorld(menus: map<Id, Menu>): (r: Result<Menu>)
  {
    if Root in menus then Ok(menus[Root]) else Panicked(NoSuchMenu)
  }

  /** For the menus of a well-formed tree, the first menu shown is the root branch's menu. */
  lemma CurrentFromTree(tree: Node)
    requires Wf(tree)
    ensures CurrentFromWorld(Menus(tree, Root)).Ok? <==> tree.Branch?
    ensures tree.Branch? ==> CurrentFromWorld(Menus(tree, Root)).value == MenuOf(tree)
  {
    RootMenuOfTree(tree);
  }

  /**
   * The navigation resources: the `AdminMenuStack` breadcrumb, the
   * `CurrentAdminMenu` and the menus queued for rendering.
   */
  class Navigator {
    var stack: Id
    var current: Menu
    var queued: seq<Menu>

    /** The breadcrumb starts at the empty id, showing the root menu. */
    constructor (root: Menu)
      ensures stack == Root && current == root && queued == []
    {
      stack := Root;
      current := root;
      queued := [];
    }

    /** The breadcrumb has a menu and the current menu is that menu. */
    ghost predicate Consistent(menus: map<Id, Menu>)
      reads this
    {
      stack in menus && current == menus[stack]
    }

    /**
     * The `Interaction::Pressed` branch of `handle_admin`: the breadcrumb
     * becomes `on_click(breadcrumb)`; only when that changes it is the new
     * menu looked up (panicking when missing), made current and queued.
     */
    method Press(menus: map<Id, Menu>, action: Action) returns (outcome: Result<()>)
      modifies this
      ensures OnClick(action, old(stack)) == old(stack) ==>
        outcome.Ok? && stack == old(stack) && current == old(current) && queued == old(queued)
      ensures OnClick(action, old(stack)) != old(stack) && OnClick(action, old(stack)) !in menus ==>
        outcome == Panicked(NoSuchMenu) && stack == old(stack) && current == old(current) && queued == old(queued)
      ensures OnClick(action, old(stack)) != old(stack) && OnClick(action, old(stack)) in menus ==>
        outcome.Ok? && stack == OnClick(action, old(stack)) && current == menus[stack] && queued == old(queued) + [current]
      ensures old(Consistent(menus)) && OnClick(action, old(stack)) in menus ==> outcome.Ok? && Consistent(menus)
    {
      var id := OnClick(action, stack);
      if stack != id {
        if id !in menus {
          return Panicked(NoSuchMenu);
        }
        var menu := menus[id];
        stack := id;
        queued := queued + [menu];
        current := menu;
      }
      return Ok(());
    }
  }
}
