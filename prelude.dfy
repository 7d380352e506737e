/**
 * Types shared by every part of the model: optional values, the outcome of an
 * operation that may panic, and the opaque handles the game framework hands out.
 */
module Prelude {

  datatype Option<+T> = None | Some(value: T)

  /** Why the program aborted: each constructor names one `unwrap` or `panic!` of the editor. */
  datatype Panic =
    | LeafOnPath       // insert_branch reached a leaf while creating a path
    | MissingChild     // index: get_branch(..).unwrap() found no child
    | NotALeaf         // leaf().unwrap() on a branch
    | BadFileName      // the file-name pattern did not match
    | MissingCapture   // a capture the transform expects is absent
    | NoSuchMenu       // admin menu lookup for an id without a menu
    | NoLayerSegment   // id.get(1).unwrap() on an id shorter than two segments
    | UnknownLayer     // overlay layer other than marker, flair or location
    | Overflow         // u16 addition overflow (debug build)

  /** The outcome of an operation that may panic. */
  datatype Result<+T> = Ok(value: T) | Panicked(reason: Panic)

  /** An image handle as the asset server hands it out; the core never looks inside. */
  type Handle(==)

  /** A folder handle returned by the asset server's `load_folder`. */
  type FolderHandle(==,!new)

  /** An entity id of the game world. */
  type Entity = nat

  /**
   * `order` lists every key of `m` exactly once: the (unspecified) order in
   * which a `HashMap` hands out its entries.
   */
  ghost predicate EnumeratesKeys<K, V>(order: seq<K>, m: map<K, V>)
  {
    && (forall i :: 0 <= i < |order| ==> order[i] in m)
    && (forall k :: k in m ==> k in order)
    && (forall i, j :: 0 <= i < j < |order| ==> order[i] != order[j])
  }
}
