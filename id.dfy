/**
 * Identifiers: ordered sequences of string segments, the address space of the
 * texture tree and of the admin menus.
 */
module Identifier {
  import opened Prelude

  type Id = seq<string>

  /** The root identifier, `Id::new(&[])`, which is also `AdminMenuStack::default()`. */
  const Root: Id := []

  /** `Id::new`: the given segments, in order. */
  function New(values: seq<string>): (r: Id)
    ensures |r| == |values|
    ensures forall i :: 0 <= i < |values| ==> r[i] == values[i]
  {
    values
  }

  /** `Id::extend`: a copy of the receiver with one more segment at the end. */
  function Extend(id: Id, value: string): (r: Id)
    ensures |r| == |id| + 1 && r[|id|] == value
    ensures r[..|id|] == id
    ensures id < r
  {
    id + [value]
  }

  /** `Id::get`: segment `index` when there is one. */
  function Get(id: Id, index: nat): (r: Option<string>)
    ensures r.Some? <==> index < |id|
    ensures r.Some? ==> r.value == id[index]
  {
    if index < |id| then Some(id[index]) else None
  }

  /** `Id::init`: the receiver without its last segment; the root stays the root. */
  function Init(id: Id): (r: Id)
    ensures id == [] ==> r == []
    ensures id != [] ==> |r| == |id| - 1 && r + [id[|id| - 1]] == id
  {
    if id == [] then [] else id[..|id| - 1]
  }

  lemma InitExtend(id: Id, value: string)
    ensures Init(Extend(id, value)) == id
  {
  }

  lemma ExtendInit(id: Id)
    requires id != []
    ensures Extend(Init(id), id[|id| - 1]) == id
  {
  }

  /** Applying `init` once per segment leads back to the root. */
  function InitN(id: Id, n: nat): Id
  {
    if n == 0 then id else InitN(Init(id), n - 1)
  }

  lemma {:induction false} InitNPrefix(id: Id, n: nat)
    requires n <= |id|
    ensures InitN(id, n) == id[..|id| - n]
  {
    if n > 0 {
      InitNPrefix(Init(id), n - 1);
      assert Init(id)[..|Init(id)| - (n - 1)] == id[..|id| - n];
    }
  }

  lemma InitNToRoot(id: Id)
    ensures InitN(id, |id|) == Root
  {
    InitNPrefix(id, |id|);
  }

  /** An identifier that can be extended in place: `Id::push` on `&mut self`. */
  class MutableId {
    var segments: Id

    constructor (values: seq<string>)
      ensures segments == New(values)
    {
      segments := values;
    }

    /** `Id::push`: appends in place; the earlier segments are untouched. */
    method Push(value: string)
      modifies this
      ensures segments == Extend(old(segments), value)
      ensures |segments| == |old(segments)| + 1
      ensures segments[..|old(segments)|] == old(segments)
    {
      segments := segments + [value];
    }
  }

  // ---------------------------------------------------------------------
  // Ordering: the derived `Ord` of `Vec<String>`, lexicographic on segments,
  // each segment compared as Rust compares `String`s.

  /**
   * Rust orders `String`s by their UTF-8 bytes, which is the order of their
   * code points; Dafny's `<` on `char` compares code points.
   */
  predicate StrLess(a: string, b: string)
  {
    if a == [] then b != []
    else if b == [] then false
    else a[0] < b[0] || (a[0] == b[0] && StrLess(a[1..], b[1..]))
  }

  lemma {:induction false} StrLessIrreflexive(a: string)
    ensures !StrLess(a, a)
  {
    if a != [] {
      StrLessIrreflexive(a[1..]);
    }
  }

  lemma {:induction false} StrLessTransitive(a: string, b: string, c: string)
    requires StrLess(a, b) && StrLess(b, c)
    ensures StrLess(a, c)
  {
    if a != [] && a[0] == b[0] && b[0] == c[0] {
      StrLessTransitive(a[1..], b[1..], c[1..]);
    }
  }

  lemma {:induction false} StrLessTotal(a: string, b: string)
    ensures a == b || StrLess(a, b) || StrLess(b, a)
  {
    if a != [] && b != [] && a[0] == b[0] {
      StrLessTotal(a[1..], b[1..]);
      if a[1..] == b[1..] {
        assert a == [a[0]] + a[1..] && b == [b[0]] + b[1..];
      }
    }
  }

  /** The derived `Ord` of `Id`: lexicographic over the segment sequences. */
  predicate IdLess(a: Id, b: Id)
  {
    if a == [] then b != []
    else if b == [] then false
    else StrLess(a[0], b[0]) || (a[0] == b[0] && IdLess(a[1..], b[1..]))
  }

  lemma {:induction false} IdLessIrreflexive(a: Id)
    ensures !IdLess(a, a)
  {
    if a != [] {
      StrLessIrreflexive(a[0]);
      IdLessIrreflexive(a[1..]);
    }
  }

  lemma {:induction false} IdLessTransitive(a: Id, b: Id, c: Id)
    requires IdLess(a, b) && IdLess(b, c)
    ensures IdLess(a, c)
  {
    if a != [] && b != [] && c != [] {
      if StrLess(a[0], b[0]) && StrLess(b[0], c[0]) {
        StrLessTransitive(a[0], b[0], c[0]);
      } else if a[0] == b[0] && b[0] == c[0] {
        IdLessTransitive(a[1..], b[1..], c[1..]);
      }
    }
  }

  lemma {:induction false} IdLessTotal(a: Id, b: Id)
    ensures a == b || IdLess(a, b) || IdLess(b, a)
  {
    if a != [] && b != [] {
      StrLessTotal(a[0], b[0]);
      if a[0] == b[0] {
        IdLessTotal(a[1..], b[1..]);
        if a[1..] == b[1..] {
          assert a == [a[0]] + a[1..] && b == [b[0]] + b[1..];
        }
      }
    }
  }

  /** A strict prefix comes first, so `extend` always moves forward in the order. */
  lemma {:induction false} PrefixIsLess(a: Id, b: Id)
    requires a < b
    ensures IdLess(a, b)
  {
    if a != [] {
      assert a[1..] < b[1..];
      PrefixIsLess(a[1..], b[1..]);
    }
  }

  // ---------------------------------------------------------------------
  // Display: `self.0.join("/")`.

  function Display(id: Id): (r: string)
  {
    if id == [] then "" else id[0] + Separated(id[1..])
  }

  /** Every segment preceded by a separator. */
  function Separated(segments: seq<string>): string
  {
    if segments == [] then "" else "/" + segments[0] + Separated(segments[1..])
  }

  lemma DisplayRoot()
    ensures Display(Root) == ""
  {
  }

  lemma DisplaySingle(s: string)
    ensures Display([s]) == s
  {
  }

  lemma {:induction false} SeparatedAppend(segments: seq<string>, s: string)
    ensures Separated(segments + [s]) == Separated(segments) + "/" + s
  {
    if segments != [] {
      assert (segments + [s])[1..] == segments[1..] + [s];
      SeparatedAppend(segments[1..], s);
    }
  }

  /** Displaying an extended, non-root id appends a separator and the new segment. */
  lemma {:induction false} DisplayExtend(id: Id, s: string)
    requires id != []
    ensures Display(Extend(id, s)) == Display(id) + "/" + s
  {
    assert Extend(id, s)[1..] == id[1..] + [s];
    SeparatedAppend(id[1..], s);
  }

  /** Display is not injective: a segment may itself contain the separator. */
  lemma DisplayNotInjective()
    ensures Display(["a/b"]) == Display(["a", "b"])
  {
  }
}
