/**
 * The texture tree: a branch maps segment names to children in key order (a
 * `BTreeMap<String, TextureNode>`), a leaf carries an image handle.
 */
module TextureTree {
  import opened Prelude
  import opened Identifier

  /**
   * A branch's entries are kept sorted by name, as a `BTreeMap` iterates them;
   * `Wf` states that invariant.
   */
  datatype Node = Branch(entries: seq<Entry>) | Leaf(handle: Handle)
  datatype Entry = Entry(name: string, node: Node)

  const EmptyBranch: Node := Branch([])

  ghost predicate Sorted(es: seq<Entry>)
  {
    forall i, j :: 0 <= i < j < |es| ==> StrLess(es[i].name, es[j].name)
  }

  /** Every branch of the tree has its entries in strictly increasing key order. */
  ghost predicate Wf(n: Node)
  {
    match n
    case Leaf(_) => true
    case Branch(es) => Sorted(es) && forall i :: 0 <= i < |es| ==> Wf(es[i].node)
  }

  /** Position of the entry called `name` (the `BTreeMap` lookup). */
  function Find(es: seq<Entry>, name: string): (r: Option<nat>)
    ensures r.Some? ==> r.value < |es| && es[r.value].name == name
    ensures r.Some? ==> forall j :: 0 <= j < r.value ==> es[j].name != name
    ensures r.None? <==> forall j :: 0 <= j < |es| ==> es[j].name != name
  {
    if es == [] then None
    else if es[0].name == name then Some(0)
    else match Find(es[1..], name)
      case None => None
      case Some(k) => Some(k + 1)
  }

  /** `TextureNode::leaf`: the handle of a leaf. */
  function LeafOf(n: Node): (r: Option<Handle>)
    ensures r.Some? <==> n.Leaf?
    ensures r.Some? ==> n == Leaf(r.value)
  {
    match n
    case Leaf(h) => Some(h)
    case Branch(_) => None
  }

  /** `TextureNode::branch`: the entries of a branch. */
  function BranchOf(n: Node): (r: Option<seq<Entry>>)
    ensures r.Some? <==> n.Branch?
    ensures r.Some? ==> n == Branch(r.value)
  {
    match n
    case Branch(es) => Some(es)
    case Leaf(_) => None
  }

  /** Exactly one of `leaf()` and `branch()` is `Some`. */
  lemma LeafXorBranch(n: Node)
    ensures LeafOf(n).Some? != BranchOf(n).Some?
  {
  }

  /** `TextureNode::get_branch` (and `get_branch_mut`): the child called `name`; `None` on a leaf. */
  function GetBranch(n: Node, name: string): (r: Option<Node>)
    ensures r.Some? <==> n.Branch? && exists i :: 0 <= i < |n.entries| && n.entries[i].name == name
    ensures r.Some? ==> exists i :: 0 <= i < |n.entries| && n.entries[i] == Entry(name, r.value)
  {
    match n
    case Leaf(_) => None
    case Branch(es) =>
      match Find(es, name)
      case None => None
      case Some(i) => Some(es[i].node)
  }

  /** `TextureNode::contains`: whether a branch has a child called `name`; `false` on a leaf. */
  function Contains(n: Node, name: string): (r: bool)
    ensures r <==> n.Branch? && exists i :: 0 <= i < |n.entries| && n.entries[i].name == name
    ensures r <==> GetBranch(n, name).Some?
  {
    match n
    case Leaf(_) => false
    case Branch(es) => Find(es, name).Some?
  }

  /** Where `BTreeMap` would put a new key: after every key not greater than it. */
  function InsertPos(es: seq<Entry>, name: string): (p: nat)
    ensures p <= |es|
    ensures forall j :: 0 <= j < p ==> !StrLess(name, es[j].name)
    ensures p < |es| ==> StrLess(name, es[p].name)
  {
    if es == [] || StrLess(name, es[0].name) then 0 else InsertPos(es[1..], name) + 1
  }

  /** Putting an entry between two sorted runs that it separates keeps the order. */
  lemma SortedAround(a: seq<Entry>, e: Entry, b: seq<Entry>)
    requires Sorted(a) && Sorted(b)
    requires forall j :: 0 <= j < |a| ==> StrLess(a[j].name, e.name)
    requires forall j :: 0 <= j < |b| ==> StrLess(e.name, b[j].name)
    ensures Sorted(a + [e] + b)
  {
    var r := a + [e] + b;
    forall i, j | 0 <= i < j < |r|
      ensures StrLess(r[i].name, r[j].name)
    {
      if i < |a| && |a| < j {
        StrLessTransitive(r[i].name, e.name, r[j].name);
      }
    }
  }

  lemma InsertKeepsSorted(es: seq<Entry>, e: Entry)
    requires Sorted(es)
    requires forall j :: 0 <= j < |es| ==> es[j].name != e.name
    ensures var p := InsertPos(es, e.name); Sorted(es[..p] + [e] + es[p..])
  {
    var p := InsertPos(es, e.name);
    var a, b := es[..p], es[p..];
    assert Sorted(a) && Sorted(b);
    forall j | 0 <= j < |a|
      ensures StrLess(a[j].name, e.name)
    {
      StrLessTotal(es[j].name, e.name);
    }
    forall j | 0 <= j < |b|
      ensures StrLess(e.name, b[j].name)
    {
      if j > 0 {
        StrLessTransitive(e.name, es[p].name, es[p + j].name);
      }
    }
    SortedAround(a, e, b);
  }

  /**
   * `TextureNode::insert_branch`: `map.entry(name).or_insert(branch)`, panicking on
   * a leaf. Returns the updated node; the child now under `name` is the existing
   * one when there was one, else `branch`, and every other child is unchanged.
   */
  function InsertBranch(n: Node, name: string, branch: Node): (r: Result<Node>)
    ensures r.Panicked? <==> n.Leaf?
    ensures r.Panicked? ==> r.reason == LeafOnPath
    ensures r.Ok? ==> r.value.Branch?
    ensures r.Ok? && Contains(n, name) ==> r.value == n
    ensures r.Ok? ==> GetBranch(r.value, name) == if Contains(n, name) then GetBranch(n, name) else Some(branch)
    ensures r.Ok? ==> forall k :: k != name ==> GetBranch(r.value, k) == GetBranch(n, k)
  {
    match n
    case Leaf(_) => Panicked(LeafOnPath)
    case Branch(es) =>
      if Find(es, name).Some? then Ok(n)
      else
        var p := InsertPos(es, name);
        var es' := es[..p] + [Entry(name, branch)] + es[p..];
        InsertedGet(es, p, Entry(name, branch));
        Ok(Branch(es'))
  }

  lemma InsertedGet(es: seq<Entry>, p: nat, e: Entry)
    requires p <= |es| && Find(es, e.name).None?
    ensures GetBranch(Branch(es[..p] + [e] + es[p..]), e.name) == Some(e.node)
    ensures forall k :: k != e.name ==> GetBranch(Branch(es[..p] + [e] + es[p..]), k) == GetBranch(Branch(es), k)
  {
    InsertedFound(es, p, e);
    forall k | k != e.name
      ensures GetBranch(Branch(es[..p] + [e] + es[p..]), k) == GetBranch(Branch(es), k)
    {
      InsertedOthers(es, p, e, k);
    }
  }

  lemma InsertedFound(es: seq<Entry>, p: nat, e: Entry)
    requires p <= |es| && Find(es, e.name).None?
    ensures Find(es[..p] + [e] + es[p..], e.name) == Some(p)
  {
    var es' := es[..p] + [e] + es[p..];
    assert es'[p] == e;
    forall j | 0 <= j < p ensures es'[j].name != e.name {
      assert es'[j] == es[j];
    }
  }

  lemma InsertedOthers(es: seq<Entry>, p: nat, e: Entry, k: string)
    requires p <= |es| && k != e.name
    ensures GetBranch(Branch(es[..p] + [e] + es[p..]), k) == GetBranch(Branch(es), k)
  {
    var a, b := es[..p], es[p..];
    var es' := es[..p] + [e] + es[p..];
    assert es == a + b;
    assert es' == a + ([e] + b);
    FindAround(a, e, b, k);
    match Find(es, k)
    case None =>
    case Some(i) =>
      if i < p { assert es'[i] == es[i]; } else { assert es'[i + 1] == es[i]; }
  }

  /** `Find` over a concatenation looks in the first part, then in the second. */
  lemma {:induction false} FindAppend(a: seq<Entry>, b: seq<Entry>, k: string)
    ensures Find(a, k).Some? ==> Find(a + b, k) == Find(a, k)
    ensures Find(a, k).None? && Find(b, k).None? ==> Find(a + b, k).None?
    ensures Find(a, k).None? && Find(b, k).Some? ==> Find(a + b, k) == Some(|a| + Find(b, k).value)
  {
    if a == [] {
      assert a + b == b;
    } else {
      assert (a + b)[0] == a[0] && (a + b)[1..] == a[1..] + b;
      FindAppend(a[1..], b, k);
    }
  }

  /** An entry with another name in front of a run shifts what `Find` reports by one. */
  lemma FindCons(e: Entry, b: seq<Entry>, k: string)
    requires k != e.name
    ensures Find(b, k).None? ==> Find([e] + b, k).None?
    ensures Find(b, k).Some? ==> Find([e] + b, k) == Some(Find(b, k).value + 1)
  {
    assert ([e] + b)[1..] == b;
  }

  /** An entry inserted among others leaves every other name where it was, shifted past the insertion point. */
  lemma FindAround(a: seq<Entry>, e: Entry, b: seq<Entry>, k: string)
    requires k != e.name
    ensures Find(a + b, k).None? ==> Find(a + ([e] + b), k).None?
    ensures Find(a + b, k).Some? && Find(a + b, k).value < |a| ==> Find(a + ([e] + b), k) == Find(a + b, k)
    ensures Find(a + b, k).Some? && Find(a + b, k).value >= |a| ==> Find(a + ([e] + b), k) == Some(Find(a + b, k).value + 1)
  {
    FindCons(e, b, k);
    FindAppend(a, b, k);
    FindAppend(a, [e] + b, k);
  }

  /** Writes `child` back under `name`, where `index_mut` handed out the mutable reference. */
  function Replace(n: Node, name: string, child: Node): (r: Node)
    requires Contains(n, name)
    ensures r.Branch? && |r.entries| == |n.entries|
    ensures forall i :: 0 <= i < |n.entries| ==> r.entries[i].name == n.entries[i].name
    ensures GetBranch(r, name) == Some(child)
    ensures forall k :: k != name ==> GetBranch(r, k) == GetBranch(n, k)
  {
    var i := Find(n.entries, name).value;
    var es' := n.entries[i := Entry(name, child)];
    assert forall k :: Find(es', k) == Find(n.entries, k) by {
      forall k ensures Find(es', k) == Find(n.entries, k) {
        FindAfterReplace(n.entries, i, child, k);
      }
    }
    Branch(es')
  }

  lemma FindAfterReplace(es: seq<Entry>, i: nat, child: Node, k: string)
    requires i < |es|
    ensures Find(es[i := Entry(es[i].name, child)], k) == Find(es, k)
  {
    var es' := es[i := Entry(es[i].name, child)];
    assert forall j :: 0 <= j < |es| ==> es'[j].name == es[j].name;
  }

  // ---------------------------------------------------------------------
  // Path lookup: `impl Index<&Id> for TextureNode`.

  /** The node at `id`; `None` when a segment is missing or a leaf is met on the way. */
  function Lookup(n: Node, id: Id): Option<Node>
    decreases |id|
  {
    if id == [] then Some(n)
    else match GetBranch(n, id[0])
      case None => None
      case Some(c) => Lookup(c, id[1..])
  }

  ghost predicate IsLeafAt(n: Node, id: Id)
  {
    Lookup(n, id).Some? && Lookup(n, id).value.Leaf?
  }

  ghost predicate IsBranchAt(n: Node, id: Id)
  {
    Lookup(n, id).Some? && Lookup(n, id).value.Branch?
  }

  /** Looking up `p + q` is looking up `p` and then `q` from there. */
  lemma {:induction false} LookupAppend(n: Node, p: Id, q: Id)
    ensures Lookup(n, p + q) == match Lookup(n, p) case None => None case Some(m) => Lookup(m, q)
    decreases |p|
  {
    if p == [] {
      assert p + q == q;
    } else {
      assert (p + q)[0] == p[0] && (p + q)[1..] == p[1..] + q;
      match GetBranch(n, p[0])
      case None =>
      case Some(c) => LookupAppend(c, p[1..], q);
    }
  }

  /** Every strict prefix of a path that resolves is a branch. */
  lemma PrefixesAreBranches(n: Node, p: Id, id: Id)
    requires Lookup(n, id).Some? && p < id
    ensures IsBranchAt(n, p)
  {
    LookupAppend(n, p, id[|p|..]);
    assert p + id[|p|..] == id;
    assert id[|p|..] != [];
  }

  /**
   * `index`: walks the segments, following `get_branch(name).unwrap()`; the
   * empty id gives the root, a missing segment or a leaf mid-walk panics.
   */
  method Index(root: Node, id: Id) returns (r: Result<Node>)
    ensures r.Ok? <==> Lookup(root, id).Some?
    ensures r.Ok? ==> r.value == Lookup(root, id).value
    ensures r.Panicked? ==> r.reason == MissingChild
    ensures id == [] ==> r == Ok(root)
  {
    var current := root;
    var i := 0;
    while i < |id|
      invariant 0 <= i <= |id|
      invariant Lookup(root, id) == Lookup(current, id[i..])
    {
      assert id[i..][1..] == id[i + 1..];
      var next := GetBranch(current, id[i]);
      if next.None? {
        return Panicked(MissingChild);
      }
      current := next.value;
      i := i + 1;
    }
    return Ok(current);
  }

  // ---------------------------------------------------------------------
  // Path insertion: `impl IndexMut<&Id> for TextureNode` followed by an assignment.

  /**
   * One step of `index_mut`'s walk: reuse the child called `name` when
   * `contains` says there is one, otherwise `insert_branch` an empty branch
   * (which panics on a leaf).
   */
  function Walk(n: Node, name: string): (r: Result<Node>)
    ensures r.Panicked? <==> n.Leaf?
    ensures r.Panicked? ==> r.reason == LeafOnPath
    ensures r.Ok? ==> r.value.Branch? && Contains(r.value, name)
    ensures r.Ok? ==> GetBranch(r.value, name).value == ChildOnPath(n, name)
    ensures r.Ok? ==> forall k :: k != name ==> GetBranch(r.value, k) == GetBranch(n, k)
  {
    if Contains(n, name) then Ok(n) else InsertBranch(n, name, EmptyBranch)
  }

  /** The child a walk through `name` continues into: the existing one, or a new empty branch. */
  function ChildOnPath(n: Node, name: string): Node
  {
    if Contains(n, name) then GetBranch(n, name).value else EmptyBranch
  }

  /**
   * `root[&id] = v`: walks the segments as `index_mut` does and overwrites the
   * node reached.
   */
  function AssignAt(n: Node, id: Id, v: Node): (r: Result<Node>)
    decreases |id|
  {
    if id == [] then Ok(v)
    else
      match Walk(n, id[0])
      case Panicked(p) => Panicked(p)
      case Ok(b) =>
        match AssignAt(ChildOnPath(n, id[0]), id[1..], v)
        case Panicked(p) => Panicked(p)
        case Ok(c) => Ok(Replace(b, id[0], c))
  }

  /** A leaf sits at a strict prefix of `id`. */
  ghost predicate LeafAbove(n: Node, id: Id)
  {
    exists k :: 0 <= k < |id| && IsLeafAt(n, id[..k])
  }

  lemma {:induction false} AssignBelowEmptyOk(id: Id, v: Node)
    ensures AssignAt(EmptyBranch, id, v).Ok?
    decreases |id|
  {
    if id != [] {
      AssignBelowEmptyOk(id[1..], v);
    }
  }

  /** Looking up a non-empty path below a branch goes through the child named by its first segment. */
  lemma LookupHead(n: Node, p: Id)
    requires n.Branch? && p != []
    ensures Lookup(n, p) == if Contains(n, p[0]) then Lookup(ChildOnPath(n, p[0]), p[1..]) else None
  {
  }

  lemma LookupPrefixStep(n: Node, id: Id, k: nat)
    requires n.Branch? && 1 <= k <= |id|
    ensures Lookup(n, id[..k]) == if Contains(n, id[0]) then Lookup(ChildOnPath(n, id[0]), id[1..][..k - 1]) else None
  {
    assert id[..k][0] == id[0] && id[..k][1..] == id[1..][..k - 1];
    LookupHead(n, id[..k]);
  }

  /** `root[&id] = v` panics exactly when a leaf lies on a strict prefix of `id`. */
  lemma {:induction false} AssignAtPanics(n: Node, id: Id, v: Node)
    ensures AssignAt(n, id, v).Panicked? <==> LeafAbove(n, id)
    decreases |id|
  {
    if id == [] {
    } else if n.Leaf? {
      assert id[..0] == [];
      assert IsLeafAt(n, id[..0]);
    } else {
      var c := ChildOnPath(n, id[0]);
      assert !IsLeafAt(n, id[..0]) by { assert id[..0] == []; }
      forall k | 1 <= k < |id|
        ensures IsLeafAt(n, id[..k]) == (Contains(n, id[0]) && IsLeafAt(c, id[1..][..k - 1]))
      {
        LookupPrefixStep(n, id, k);
      }
      if Contains(n, id[0]) {
        AssignAtPanics(c, id[1..], v);
        if LeafAbove(c, id[1..]) {
          var k :| 0 <= k < |id[1..]| && IsLeafAt(c, id[1..][..k]);
          assert IsLeafAt(n, id[..k + 1]);
        }
      } else {
        AssignBelowEmptyOk(id[1..], v);
      }
    }
  }

  /** The empty branch holds nothing below the root. */
  lemma LookupEmpty(p: Id)
    requires p != []
    ensures Lookup(EmptyBranch, p).None?
  {
  }

  /** One level of `root[&id] = v`: a path through another first segment sees the old tree. */
  lemma AssignAtHead(n: Node, id: Id, v: Node, p: Id)
    requires id != [] && p != [] && AssignAt(n, id, v).Ok?
    ensures AssignAt(ChildOnPath(n, id[0]), id[1..], v).Ok?
    ensures p[0] == id[0] ==>
      Lookup(AssignAt(n, id, v).value, p) == Lookup(AssignAt(ChildOnPath(n, id[0]), id[1..], v).value, p[1..])
    ensures p[0] != id[0] ==> Lookup(AssignAt(n, id, v).value, p) == Lookup(n, p)
  {
    var b := Walk(n, id[0]).value;
    var c' := AssignAt(ChildOnPath(n, id[0]), id[1..], v).value;
    var r := Replace(b, id[0], c');
    assert AssignAt(n, id, v).value == r;
    LookupHead(r, p);
    if p[0] != id[0] {
      assert GetBranch(r, p[0]) == GetBranch(n, p[0]);
    }
  }

  /** Two paths with the same first segment are prefix-related exactly when their tails are. */
  lemma PrefixTails(id: Id, p: Id)
    requires id != [] && p != [] && id[0] == p[0]
    ensures id <= p <==> id[1..] <= p[1..]
    ensures p < id <==> p[1..] < id[1..]
    ensures id <= p ==> p[|id|..] == p[1..][|id[1..]|..]
  {
    assert id == [id[0]] + id[1..] && p == [p[0]] + p[1..];
  }

  /** Below `id` the assigned tree is `v`. */
  lemma {:induction false} AssignAtBelow(n: Node, id: Id, v: Node, p: Id)
    requires AssignAt(n, id, v).Ok? && id <= p
    ensures Lookup(AssignAt(n, id, v).value, p) == Lookup(v, p[|id|..])
    decreases |id|
  {
    if id == [] {
      assert p[|id|..] == p;
    } else {
      AssignAtHead(n, id, v, p);
      PrefixTails(id, p);
      AssignAtBelow(ChildOnPath(n, id[0]), id[1..], v, p[1..]);
    }
  }

  /** Every strict prefix of `id` is a branch of the assigned tree. */
  lemma {:induction false} AssignAtAbove(n: Node, id: Id, v: Node, p: Id)
    requires AssignAt(n, id, v).Ok? && p < id
    ensures IsBranchAt(AssignAt(n, id, v).value, p)
    decreases |id|
  {
    if p == [] {
      assert AssignAt(n, id, v).value.Branch?;
    } else {
      AssignAtHead(n, id, v, p);
      PrefixTails(id, p);
      AssignAtAbove(ChildOnPath(n, id[0]), id[1..], v, p[1..]);
    }
  }

  /** A path that diverges from `id` sees the old tree. */
  lemma {:induction false} AssignAtAside(n: Node, id: Id, v: Node, p: Id)
    requires AssignAt(n, id, v).Ok? && !(id <= p) && !(p < id)
    ensures Lookup(AssignAt(n, id, v).value, p) == Lookup(n, p)
    decreases |id|
  {
    assert id != [] && p != [];
    AssignAtHead(n, id, v, p);
    if p[0] == id[0] {
      PrefixTails(id, p);
      var c := ChildOnPath(n, id[0]);
      AssignAtAside(c, id[1..], v, p[1..]);
      LookupHead(n, p);
      if !Contains(n, id[0]) {
        assert p[1..] != [];
        LookupEmpty(p[1..]);
      }
    }
  }

  /**
   * After `root[&id] = v`: below `id` the tree is `v`, every strict prefix of
   * `id` is a branch, and every path that diverges from `id` is unchanged.
   */
  lemma AssignAtLookup(n: Node, id: Id, v: Node, p: Id)
    requires AssignAt(n, id, v).Ok?
    ensures id <= p ==> Lookup(AssignAt(n, id, v).value, p) == Lookup(v, p[|id|..])
    ensures p < id ==> IsBranchAt(AssignAt(n, id, v).value, p)
    ensures !(id <= p) && !(p < id) ==> Lookup(AssignAt(n, id, v).value, p) == Lookup(n, p)
  {
    if id <= p {
      AssignAtBelow(n, id, v, p);
    } else if p < id {
      AssignAtAbove(n, id, v, p);
    } else {
      AssignAtAside(n, id, v, p);
    }
  }

  /** A node written at `id` is found there. */
  lemma AssignAtFound(n: Node, id: Id, v: Node)
    requires AssignAt(n, id, v).Ok?
    ensures Lookup(AssignAt(n, id, v).value, id) == Some(v)
  {
    AssignAtLookup(n, id, v, id);
    assert id[|id|..] == [];
  }

  /**
   * Assigning a leaf at an id that currently holds a whole subtree replaces
   * that subtree: nothing below the new leaf resolves any more.
   */
  lemma AssignLeafReplacesSubtree(n: Node, id: Id, h: Handle, q: Id)
    requires AssignAt(n, id, Leaf(h)).Ok? && q != []
    ensures Lookup(AssignAt(n, id, Leaf(h)).value, id + q).None?
  {
    AssignAtLookup(n, id, Leaf(h), id + q);
    assert (id + q)[|id|..] == q;
  }

  /** At `p` sits a branch whose only child is called `name`. */
  ghost predicate SingletonAt(t: Node, p: Id, name: string)
  {
    && Lookup(t, p).Some?
    && Lookup(t, p).value.Branch?
    && |Lookup(t, p).value.entries| == 1
    && Lookup(t, p).value.entries[0].name == name
  }

  /** Looking up the first `k` segments of `id` after assigning at `id` goes through the child for `id[0]`. */
  lemma AssignAtPrefix(n: Node, id: Id, v: Node, k: nat)
    requires AssignAt(n, id, v).Ok? && 1 <= k <= |id|
    ensures AssignAt(ChildOnPath(n, id[0]), id[1..], v).Ok?
    ensures Lookup(AssignAt(n, id, v).value, id[..k]) == Lookup(AssignAt(ChildOnPath(n, id[0]), id[1..], v).value, id[1..][..k - 1])
  {
    PrefixHeadTail(id, k);
    AssignAtHead(n, id, v, id[..k]);
  }

  lemma PrefixHeadTail(id: Id, k: nat)
    requires 1 <= k <= |id|
    ensures id[..k] != [] && id[..k][0] == id[0] && id[..k][1..] == id[1..][..k - 1]
  {
  }

  /**
   * When `index_mut` has to create part of a path, each branch it creates
   * holds only the next segment of that path.
   */
  lemma {:induction false} AssignCreatesEmptyBranches(n: Node, id: Id, v: Node, k: nat)
    requires AssignAt(n, id, v).Ok?
    requires k < |id| && Lookup(n, id[..k]).None?
    ensures SingletonAt(AssignAt(n, id, v).value, id[..k], id[k])
    decreases |id|
  {
    assert k != 0 by { assert id[..0] == []; }
    AssignAtPrefix(n, id, v, k);
    if Contains(n, id[0]) {
      LookupPrefixStep(n, id, k);
      AssignCreatesEmptyBranches(ChildOnPath(n, id[0]), id[1..], v, k - 1);
    } else {
      CreatedPathIsSingleton(id[1..], v, k - 1);
    }
  }

  /** Assigning below an empty branch leaves a root whose only child is the first segment. */
  lemma CreatedRootIsSingleton(id: Id, v: Node)
    requires id != [] && AssignAt(EmptyBranch, id, v).Ok?
    ensures SingletonAt(AssignAt(EmptyBranch, id, v).value, id[..0], id[0])
  {
    var b := Walk(EmptyBranch, id[0]).value;
    assert b == Branch([Entry(id[0], EmptyBranch)]);
    assert id[..0] == [];
  }

  /** Assigning below an empty branch creates a chain of single-child branches. */
  lemma {:induction false} CreatedPathIsSingleton(id: Id, v: Node, k: nat)
    requires k < |id|
    ensures AssignAt(EmptyBranch, id, v).Ok?
    ensures SingletonAt(AssignAt(EmptyBranch, id, v).value, id[..k], id[k])
    decreases |id|
  {
    AssignBelowEmptyOk(id, v);
    if k == 0 {
      CreatedRootIsSingleton(id, v);
    } else {
      AssignAtPrefix(EmptyBranch, id, v, k);
      assert !Contains(EmptyBranch, id[0]);
      assert id[1..][k - 1] == id[k];
      CreatedPathIsSingleton(id[1..], v, k - 1);
    }
  }

  /** In a sorted branch the child at position `j` is the one `get_branch` finds by its name. */
  lemma SortedUniqueGet(es: seq<Entry>, j: nat)
    requires Sorted(es) && j < |es|
    ensures GetBranch(Branch(es), es[j].name) == Some(es[j].node)
  {
    var i := Find(es, es[j].name).value;
    StrLessIrreflexive(es[j].name);
    assert !StrLess(es[i].name, es[j].name);
  }

  /** Every child of a well-formed branch is well formed. */
  lemma ChildWf(n: Node, name: string)
    requires Wf(n) && GetBranch(n, name).Some?
    ensures Wf(GetBranch(n, name).value)
  {
    var i :| 0 <= i < |n.entries| && n.entries[i] == Entry(name, GetBranch(n, name).value);
  }

  /** Every node a path leads to in a well-formed tree is well formed. */
  lemma {:induction false} LookupWf(n: Node, p: Id)
    requires Wf(n) && Lookup(n, p).Some?
    ensures Wf(Lookup(n, p).value)
    decreases |p|
  {
    if p != [] {
      ChildWf(n, p[0]);
      LookupWf(GetBranch(n, p[0]).value, p[1..]);
    }
  }

  lemma WalkWf(n: Node, name: string)
    requires Wf(n) && n.Branch?
    ensures Wf(Walk(n, name).value)
  {
    if !Contains(n, name) {
      var es := n.entries;
      var p := InsertPos(es, name);
      var es' := es[..p] + [Entry(name, EmptyBranch)] + es[p..];
      InsertKeepsSorted(es, Entry(name, EmptyBranch));
      assert Walk(n, name).value == Branch(es');
      forall i | 0 <= i < |es'| ensures Wf(es'[i].node) {
        if i < p { assert es'[i] == es[i]; }
        else if i > p { assert es'[i] == es[i - 1]; }
      }
    }
  }

  lemma ReplaceWf(b: Node, name: string, c: Node)
    requires Wf(b) && Wf(c) && Contains(b, name)
    ensures Wf(Replace(b, name, c))
  {
    var r := Replace(b, name, c);
    forall j | 0 <= j < |r.entries| ensures Wf(r.entries[j].node) {
      SortedUniqueGet(r.entries, j);
      if r.entries[j].name != name {
        SortedUniqueGet(b.entries, j);
      }
    }
  }

  /** Path insertion keeps every branch's keys sorted. */
  lemma {:induction false} AssignAtWf(n: Node, id: Id, v: Node)
    requires Wf(n) && Wf(v) && AssignAt(n, id, v).Ok?
    ensures Wf(AssignAt(n, id, v).value)
    decreases |id|
  {
    if id != [] {
      WalkWf(n, id[0]);
      var c := ChildOnPath(n, id[0]);
      if Contains(n, id[0]) {
        ChildWf(n, id[0]);
      }
      AssignAtWf(c, id[1..], v);
      ReplaceWf(Walk(n, id[0]).value, id[0], AssignAt(c, id[1..], v).value);
    }
  }

  // ---------------------------------------------------------------------
  // `TextureNode::new`: a leaf written at every id of a `HashMap`.

  /** No identifier of the set is a strict prefix of another. */
  ghost predicate PrefixFree(ids: set<Id>)
  {
    forall a, b {:trigger StrictPrefix(a, b)} :: a in ids && b in ids ==> !StrictPrefix(a, b)
  }

  /** `a` is a strict prefix of `b`. */
  ghost predicate StrictPrefix(a: Id, b: Id)
  {
    a < b
  }

  /**
   * The loop of `TextureNode::new` from tree `t` on: a leaf is assigned at each
   * id of `order` in turn, and the first panicking assignment ends it.
   */
  function BuildFrom(t: Node, m: map<Id, Handle>, order: seq<Id>): Result<Node>
    requires forall i :: 0 <= i < |order| ==> order[i] in m
    decreases |order|
  {
    if order == [] then Ok(t)
    else
      match AssignAt(t, order[0], Leaf(m[order[0]]))
      case Panicked(p) => Panicked(p)
      case Ok(t') => BuildFrom(t', m, order[1..])
  }

  /** The tree `TextureNode::new` builds from the map, taking its ids in `order`. */
  function BuildTree(m: map<Id, Handle>, order: seq<Id>): Result<Node>
    requires forall i :: 0 <= i < |order| ==> order[i] in m
  {
    BuildFrom(EmptyBranch, m, order)
  }

  /**
   * `TextureNode::new`: starting from an empty branch, `root[&id] = leaf` for
   * every entry of the map, in the map's iteration order (`BuildTreeLeaves`
   * says what the result holds).
   */
  method New(m: map<Id, Handle>, order: seq<Id>) returns (r: Result<Node>)
    requires EnumeratesKeys(order, m)
    ensures r == BuildTree(m, order)
  {
    var root := EmptyBranch;
    var i := 0;
    while i < |order|
      invariant 0 <= i <= |order|
      invariant BuildTree(m, order) == BuildFrom(root, m, order[i..])
    {
      assert order[i..][1..] == order[i + 1..];
      var written := AssignAt(root, order[i], Leaf(m[order[i]]));
      if written.Panicked? {
        r := written;
        break;
      }
      root := written.value;
      i := i + 1;
    }
    if i == |order| {
      assert order[i..] == [];
      r := Ok(root);
    }
  }

  /**
   * Assigning a leaf at an id unrelated by prefix to every id that already
   * holds a leaf succeeds, and disturbs none of those leaves.
   */
  lemma {:induction false} AssignLeafStep(t: Node, id: Id, h: Handle, placed: set<Id>)
    requires Wf(t)
    requires forall p :: IsLeafAt(t, p) ==> p in placed
    requires forall q :: q in placed ==> !(q <= id) && !(id < q)
    ensures AssignAt(t, id, Leaf(h)).Ok?
    ensures Wf(AssignAt(t, id, Leaf(h)).value)
    ensures Lookup(AssignAt(t, id, Leaf(h)).value, id) == Some(Leaf(h))
    ensures forall q :: q in placed ==> Lookup(AssignAt(t, id, Leaf(h)).value, q) == Lookup(t, q)
    ensures forall p :: IsLeafAt(AssignAt(t, id, Leaf(h)).value, p) ==> p in placed || p == id
  {
    forall k | 0 <= k < |id| ensures !IsLeafAt(t, id[..k]) {
      assert id[..k] <= id;
    }
    AssignAtPanics(t, id, Leaf(h));
    AssignAtWf(t, id, Leaf(h));
    AssignAtFound(t, id, Leaf(h));
    var t' := AssignAt(t, id, Leaf(h)).value;
    forall q | q in placed
      ensures Lookup(t', q) == Lookup(t, q)
    {
      AssignAtLookup(t, id, Leaf(h), q);
    }
    forall p | id < p
      ensures Lookup(t', p).None?
    {
      AssignAtLookup(t, id, Leaf(h), p);
      assert p[|id|..] != [];
    }
    forall p | IsLeafAt(t', p)
      ensures p in placed || p == id
    {
      AssignAtLookup(t, id, Leaf(h), p);
    }
  }

  /** The ids the build has written after `i` steps. */
  ghost function Placed(order: seq<Id>, i: nat): set<Id>
    requires i <= |order|
  {
    if i == 0 then {} else Placed(order, i - 1) + {order[i - 1]}
  }

  lemma PlacedSnoc(order: seq<Id>, i: nat)
    requires i < |order|
    ensures Placed(order, i + 1) == Placed(order, i) + {order[i]}
  {
  }

  /** The ids written so far are keys of the map, and the next id is not among them. */
  lemma {:induction false} PlacedFresh(m: map<Id, Handle>, order: seq<Id>, i: nat)
    requires EnumeratesKeys(order, m) && i <= |order|
    ensures Placed(order, i) <= m.Keys
    ensures forall k :: i <= k < |order| ==> order[k] !in Placed(order, i)
    ensures forall j :: 0 <= j < i ==> order[j] in Placed(order, i)
  {
    if i > 0 {
      PlacedFresh(m, order, i - 1);
    }
  }

  /**
   * Writing the leaf of a fresh key of a prefix-free map lands in a place no
   * earlier leaf occupies and disturbs none of them.
   */
  lemma {:induction false} LeafStepFromKeys(m: map<Id, Handle>, placed: set<Id>, t: Node, id: Id)
    requires PrefixFree(m.Keys) && placed <= m.Keys && id in m && id !in placed
    requires Wf(t)
    requires forall q :: q in placed ==> Lookup(t, q) == Some(Leaf(m[q]))
    requires forall p :: IsLeafAt(t, p) ==> p in placed
    ensures AssignAt(t, id, Leaf(m[id])).Ok?
    ensures Wf(AssignAt(t, id, Leaf(m[id])).value)
    ensures forall q :: q in placed + {id} ==> Lookup(AssignAt(t, id, Leaf(m[id])).value, q) == Some(Leaf(m[q]))
    ensures forall p :: IsLeafAt(AssignAt(t, id, Leaf(m[id])).value, p) ==> p in placed + {id}
  {
    forall q | q in placed ensures !(q <= id) && !(id < q) {
      assert q in m.Keys && id in m.Keys && q != id;
      assert !StrictPrefix(q, id) && !StrictPrefix(id, q);
    }
    AssignLeafStep(t, id, m[id], placed);
  }

  /**
   * After `i` steps of the build, `t` is well formed and holds exactly the
   * leaves of the ids written so far, each with its handle.
   */
  ghost predicate Built(m: map<Id, Handle>, order: seq<Id>, i: nat, t: Node)
    requires i <= |order|
  {
    && Placed(order, i) <= m.Keys
    && Wf(t)
    && (forall q :: q in Placed(order, i) ==> Lookup(t, q) == Some(Leaf(m[q])))
    && (forall p :: IsLeafAt(t, p) ==> p in Placed(order, i))
  }

  /** One step of the build over a prefix-free set keeps `Built`. */
  lemma BuildTreePrefixFreeStep(m: map<Id, Handle>, order: seq<Id>, i: nat, t: Node)
    requires EnumeratesKeys(order, m) && PrefixFree(m.Keys) && i < |order|
    requires Built(m, order, i, t)
    ensures AssignAt(t, order[i], Leaf(m[order[i]])).Ok?
    ensures Built(m, order, i + 1, AssignAt(t, order[i], Leaf(m[order[i]])).value)
  {
    PlacedFresh(m, order, i);
    PlacedSnoc(order, i);
    LeafStepFromKeys(m, Placed(order, i), t, order[i]);
  }

  /** From any point of a prefix-free build the rest of the loop keeps `Built` to the end. */
  lemma {:induction false} BuildFromBuilt(m: map<Id, Handle>, order: seq<Id>, i: nat, t: Node)
    requires EnumeratesKeys(order, m) && PrefixFree(m.Keys) && i <= |order|
    requires Built(m, order, i, t)
    ensures BuildFrom(t, m, order[i..]).Ok?
    ensures Built(m, order, |order|, BuildFrom(t, m, order[i..]).value)
    decreases |order| - i
  {
    if i == |order| {
      assert order[i..] == [];
    } else {
      BuildTreePrefixFreeStep(m, order, i, t);
      var t' := AssignAt(t, order[i], Leaf(m[order[i]])).value;
      BuildFromBuilt(m, order, i + 1, t');
      BuildFromStep(t, m, order, i);
    }
  }

  /** One turn of the loop: after a successful assignment the loop goes on from the new tree. */
  lemma BuildFromStep(t: Node, m: map<Id, Handle>, order: seq<Id>, i: nat)
    requires forall j :: 0 <= j < |order| ==> order[j] in m
    requires i < |order| && AssignAt(t, order[i], Leaf(m[order[i]])).Ok?
    ensures BuildFrom(t, m, order[i..]) == BuildFrom(AssignAt(t, order[i], Leaf(m[order[i]])).value, m, order[i + 1..])
  {
    assert order[i..][0] == order[i] && order[i..][1..] == order[i + 1..];
  }

  /**
   * For a prefix-free set of ids, building never panics, keeps the tree well
   * formed, finds each id as a leaf with its handle and has no other leaves.
   */
  lemma BuildTreeLeaves(m: map<Id, Handle>, order: seq<Id>)
    requires EnumeratesKeys(order, m) && PrefixFree(m.Keys)
    ensures BuildTree(m, order).Ok? && Wf(BuildTree(m, order).value)
    ensures forall id :: id in m ==> Lookup(BuildTree(m, order).value, id) == Some(Leaf(m[id]))
    ensures forall p :: IsLeafAt(BuildTree(m, order).value, p) ==> p in m
  {
    forall p ensures !IsLeafAt(EmptyBranch, p) {
      if p != [] {
        LookupEmpty(p);
      }
    }
    assert order[0..] == order;
    BuildFromBuilt(m, order, 0, EmptyBranch);
    PlacedFresh(m, order, |order|);
    forall id | id in m ensures Lookup(BuildTree(m, order).value, id) == Some(Leaf(m[id])) {
      var j :| 0 <= j < |order| && order[j] == id;
    }
  }

  /**
   * The iteration order decides between a panic and a tree when one id is a
   * prefix of another: with a leaf at `a` first, the insertion of `a/b` panics.
   */
  lemma OrderMattersPanic(h1: Handle, h2: Handle)
    ensures BuildTree(map[["a"] := h1, ["a", "b"] := h2], [["a"], ["a", "b"]]).Panicked?
  {
    var m := map[["a"] := h1, ["a", "b"] := h2];
    var o: seq<Id> := [["a"], ["a", "b"]];
    AssignBelowEmptyOk(["a"], Leaf(h1));
    var t := AssignAt(EmptyBranch, ["a"], Leaf(h1)).value;
    assert o[1..] == [["a", "b"]];
    assert BuildTree(m, o) == BuildFrom(t, m, o[1..]);
    AssignAtFound(EmptyBranch, ["a"], Leaf(h1));
    assert ["a", "b"][..1] == ["a"];
    assert IsLeafAt(t, ["a", "b"][..1]);
    AssignAtPanics(t, ["a", "b"], Leaf(h2));
  }

  /** A leaf written at the one-segment id `a` of a branch replaces whatever was below `a`. */
  lemma LeafAtTopOverwrites(t: Node, h: Handle)
    requires t.Branch?
    ensures AssignAt(t, ["a"], Leaf(h)).Ok?
    ensures Lookup(AssignAt(t, ["a"], Leaf(h)).value, ["a"]) == Some(Leaf(h))
    ensures Lookup(AssignAt(t, ["a"], Leaf(h)).value, ["a", "b"]) == None
  {
    assert !LeafAbove(t, ["a"]) by {
      assert ["a"][..0] == [];
      assert Lookup(t, []) == Some(t);
    }
    AssignAtPanics(t, ["a"], Leaf(h));
    AssignAtFound(t, ["a"], Leaf(h));
    AssignLeafReplacesSubtree(t, ["a"], h, ["b"]);
    assert ["a"] + ["b"] == ["a", "b"];
  }

  /** With `a/b` first, the later leaf at `a` overwrites the whole branch. */
  lemma OrderMattersOverwrite(h1: Handle, h2: Handle)
    ensures var built := BuildTree(map[["a"] := h1, ["a", "b"] := h2], [["a", "b"], ["a"]]);
      && built.Ok?
      && Lookup(built.value, ["a"]) == Some(Leaf(h1))
      && Lookup(built.value, ["a", "b"]) == None
  {
    var m := map[["a"] := h1, ["a", "b"] := h2];
    var o: seq<Id> := [["a", "b"], ["a"]];
    AssignBelowEmptyOk(["a", "b"], Leaf(h2));
    var t := AssignAt(EmptyBranch, ["a", "b"], Leaf(h2)).value;
    assert o[1..] == [["a"]] && o[1..][1..] == [];
    assert BuildTree(m, o) == BuildFrom(t, m, o[1..]);
    LeafAtTopOverwrites(t, h1);
    var t' := AssignAt(t, ["a"], Leaf(h1)).value;
    assert BuildFrom(t, m, o[1..]) == BuildFrom(t', m, o[1..][1..]);
  }
}
