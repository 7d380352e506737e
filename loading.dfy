/**
 * The catalog loading pass: load handlers turn a loaded asset folder into
 * `(Id, handle)` pairs, `check_load_handlers` polls the pending folders and
 * fills the textures map, and `transform_textures` turns that map into the
 * texture tree.
 */
module Loading {
  import opened Prelude
  import opened Identifier
  import opened Patterns
  import TextureTree

  // ---------------------------------------------------------------------
  // Load handlers: a folder-name pattern and a transform.

  /** The two handlers `register_load_handlers` installs, in registration order. */
  datatype LoadHandler = TileFamily | OverlayFamily

  const Registered: seq<LoadHandler> := [TileFamily, OverlayFamily]

  /** The named captures of the handler's folder pattern, `None` when the name does not match. */
  function Captures(h: LoadHandler, folderName: string): Option<map<string, string>>
  {
    match h
    case TileFamily => TileCaptures(folderName)
    case OverlayFamily => OverlayCaptures(folderName)
  }

  /**
   * The handler's closure: for each file, in the file map's iteration order, the
   * id made of `prefix` and the file's number, with the file's handle; a file
   * name the number pattern does not match panics (`unwrap`).
   */
  function NumberedIds(prefix: Id, files: seq<(string, Handle)>): (r: Result<seq<(Id, Handle)>>)
    ensures r.Ok? <==> forall i :: 0 <= i < |files| ==> FileNumber(files[i].0).Some?
    ensures r.Panicked? ==> r.reason == BadFileName
    ensures r.Ok? ==> |r.value| == |files|
    ensures r.Ok? ==> forall i :: 0 <= i < |files| ==>
      r.value[i] == (Extend(prefix, FileNumber(files[i].0).value), files[i].1)
  {
    if files == [] then Ok([])
    else
      match FileNumber(files[0].0)
      case None => Panicked(BadFileName)
      case Some(number) =>
        match NumberedIds(prefix, files[1..])
        case Panicked(p) => Panicked(p)
        case Ok(rest) => Ok([(Extend(prefix, number), files[0].1)] + rest)
  }

  /** `LoadHandler::handle`: the transform of each registered handler. */
  function Transform(h: LoadHandler, captures: map<string, string>, files: seq<(string, Handle)>): Result<seq<(Id, Handle)>>
  {
    match h
    case TileFamily =>
      if "tile_type" in captures && "tile_variant" in captures && "color" in captures then
        NumberedIds([captures["tile_type"], captures["tile_variant"], captures["color"]], files)
      else Panicked(MissingCapture)
    case OverlayFamily =>
      if "name" in captures then NumberedIds(["overlay", captures["name"]], files)
      else Panicked(MissingCapture)
  }

  /**
   * The tile handler emits, for each file, `[tile_type, tile_variant, color, number]`
   * with the file's handle, and panics exactly when some file name has no number.
   */
  lemma TileHandlerOutput(folderName: string, files: seq<(string, Handle)>)
    requires Captures(TileFamily, folderName).Some?
    ensures var caps := Captures(TileFamily, folderName).value;
      var out := Transform(TileFamily, caps, files);
      && (out.Ok? <==> forall i :: 0 <= i < |files| ==> FileNumber(files[i].0).Some?)
      && (out.Ok? ==> |out.value| == |files| && forall i :: 0 <= i < |files| ==>
            out.value[i] == ([caps["tile_type"], caps["tile_variant"], caps["color"], FileNumber(files[i].0).value], files[i].1))
  {
    var caps := Captures(TileFamily, folderName).value;
    var prefix := [caps["tile_type"], caps["tile_variant"], caps["color"]];
    var out := NumberedIds(prefix, files);
    assert Transform(TileFamily, caps, files) == out;
    forall i | 0 <= i < |files| && out.Ok?
      ensures out.value[i] == ([caps["tile_type"], caps["tile_variant"], caps["color"], FileNumber(files[i].0).value], files[i].1)
    {
      var number := FileNumber(files[i].0).value;
      assert out.value[i] == (Extend(prefix, number), files[i].1);
      assert Extend(prefix, number) == prefix + [number];
      assert prefix + [number] == [caps["tile_type"], caps["tile_variant"], caps["color"], number];
    }
  }

  /** The overlay handler emits, for each file, `["overlay", name, number]` with the file's handle. */
  lemma OverlayHandlerOutput(folderName: string, files: seq<(string, Handle)>)
    requires Captures(OverlayFamily, folderName).Some?
    ensures var caps := Captures(OverlayFamily, folderName).value;
      var out := Transform(OverlayFamily, caps, files);
      && (out.Ok? <==> forall i :: 0 <= i < |files| ==> FileNumber(files[i].0).Some?)
      && (out.Ok? ==> |out.value| == |files| && forall i :: 0 <= i < |files| ==>
            out.value[i] == (["overlay", caps["name"], FileNumber(files[i].0).value], files[i].1))
  {
    var caps := Captures(OverlayFamily, folderName).value;
    var prefix := ["overlay", caps["name"]];
    var out := NumberedIds(prefix, files);
    assert Transform(OverlayFamily, caps, files) == out;
    forall i | 0 <= i < |files| && out.Ok?
      ensures out.value[i] == (["overlay", caps["name"], FileNumber(files[i].0).value], files[i].1)
    {
      var number := FileNumber(files[i].0).value;
      assert out.value[i] == (Extend(prefix, number), files[i].1);
      assert Extend(prefix, number) == prefix + [number];
      assert prefix + [number] == ["overlay", caps["name"], number];
    }
  }

  /** The first handler at or after index `k` whose folder pattern matches. */
  function FirstMatchFrom(handlers: seq<LoadHandler>, folderName: string, k: nat): (r: Option<nat>)
    requires k <= |handlers|
    ensures r.Some? ==> k <= r.value < |handlers| && Captures(handlers[r.value], folderName).Some?
    ensures r.Some? ==> forall j :: k <= j < r.value ==> Captures(handlers[j], folderName).None?
    ensures r.None? <==> forall j :: k <= j < |handlers| ==> Captures(handlers[j], folderName).None?
    decreases |handlers| - k
  {
    if k == |handlers| then None
    else if Captures(handlers[k], folderName).Some? then Some(k)
    else FirstMatchFrom(handlers, folderName, k + 1)
  }

  /** The first handler whose folder pattern matches, as the `for … continue … break` loop finds it. */
  function FirstMatch(handlers: seq<LoadHandler>, folderName: string): (r: Option<nat>)
    ensures r.Some? ==> r.value < |handlers| && Captures(handlers[r.value], folderName).Some?
    ensures r.Some? ==> forall j :: 0 <= j < r.value ==> Captures(handlers[j], folderName).None?
    ensures r.None? <==> forall j :: 0 <= j < |handlers| ==> Captures(handlers[j], folderName).None?
  {
    FirstMatchFrom(handlers, folderName, 0)
  }

  // ---------------------------------------------------------------------
  // The asset server, as the loading pass sees it.

  /** A handle of a loaded folder, with its file name when its path has one. */
  datatype LoadedFile = LoadedFile(fileName: Option<string>, handle: Handle)

  /** `recursive_dependency_load_state` of a folder: still loading, or loaded with its files. */
  datatype FolderState = Loading | Loaded(files: seq<LoadedFile>)

  /** An entry of `FoldersLoading`: the folder's name and the handle `load_folder` returned. */
  datatype PendingFolder = PendingFolder(name: string, handle: FolderHandle)

  type AssetServer = map<FolderHandle, FolderState>

  predicate IsLoaded(server: AssetServer, h: FolderHandle)
  {
    h in server && server[h].Loaded?
  }

  /** The files of a loaded folder that have a file name, in the file map's iteration order. */
  function NamedFiles(files: seq<LoadedFile>): (r: seq<(string, Handle)>)
    ensures |r| <= |files|
    ensures forall i :: 0 <= i < |r| ==> LoadedFile(Some(r[i].0), r[i].1) in files
    ensures forall f :: f in files && f.fileName.Some? ==> (f.fileName.value, f.handle) in r
  {
    if files == [] then []
    else
      var rest := NamedFiles(files[1..]);
      match files[0].fileName
      case None => rest
      case Some(n) => [(n, files[0].handle)] + rest
  }

  // ---------------------------------------------------------------------
  // The pass of `check_load_handlers`.

  /** `textures.0.insert(id, handle)` for each pair, in order. */
  function InsertAll(textures: map<Id, Handle>, pairs: seq<(Id, Handle)>): (r: map<Id, Handle>)
    decreases |pairs|
  {
    if pairs == [] then textures
    else InsertAll(textures, pairs[..|pairs| - 1])[pairs[|pairs| - 1].0 := pairs[|pairs| - 1].1]
  }

  /**
   * After the insertions an id holds the handle of its last pair, and ids that
   * no pair names keep their old handle.
   */
  lemma {:induction false} InsertAllLastWins(textures: map<Id, Handle>, pairs: seq<(Id, Handle)>)
    ensures forall id :: id in InsertAll(textures, pairs) <==> id in textures || exists i :: 0 <= i < |pairs| && pairs[i].0 == id
    ensures forall i :: 0 <= i < |pairs| && (forall j :: i < j < |pairs| ==> pairs[j].0 != pairs[i].0) ==>
      InsertAll(textures, pairs)[pairs[i].0] == pairs[i].1
    ensures forall id :: id in textures && (forall i :: 0 <= i < |pairs| ==> pairs[i].0 != id) ==>
      InsertAll(textures, pairs)[id] == textures[id]
    decreases |pairs|
  {
    if pairs != [] {
      var init := pairs[..|pairs| - 1];
      InsertAllLastWins(textures, init);
      forall id ensures id in InsertAll(textures, pairs) <==> id in textures || exists i :: 0 <= i < |pairs| && pairs[i].0 == id {
        if exists i :: 0 <= i < |init| && init[i].0 == id {
          var i :| 0 <= i < |init| && init[i].0 == id;
          assert pairs[i].0 == id;
        }
        if exists i :: 0 <= i < |pairs| && pairs[i].0 == id {
          var i :| 0 <= i < |pairs| && pairs[i].0 == id;
          if i < |init| { assert init[i].0 == id; }
        }
      }
      forall i | 0 <= i < |pairs| - 1 && (forall j :: i < j < |pairs| ==> pairs[j].0 != pairs[i].0)
        ensures InsertAll(textures, pairs)[pairs[i].0] == pairs[i].1
      {
        assert init[i] == pairs[i];
        assert forall j :: i < j < |init| ==> init[j].0 != init[i].0 by {
          forall j | i < j < |init| ensures init[j].0 != init[i].0 { assert init[j] == pairs[j]; }
        }
      }
      forall id | id in textures && (forall i :: 0 <= i < |pairs| ==> pairs[i].0 != id)
        ensures InsertAll(textures, pairs)[id] == textures[id]
      {
        assert forall i :: 0 <= i < |init| ==> init[i].0 != id by {
          forall i | 0 <= i < |init| ensures init[i].0 != id { assert init[i] == pairs[i]; }
        }
      }
    }
  }

  lemma {:induction false} InsertAllAppend(textures: map<Id, Handle>, a: seq<(Id, Handle)>, b: seq<(Id, Handle)>)
    ensures InsertAll(textures, a + b) == InsertAll(InsertAll(textures, a), b)
    decreases |b|
  {
    if b == [] {
      assert a + b == a;
    } else {
      assert (a + b)[..|a + b| - 1] == a + b[..|b| - 1];
      InsertAllAppend(textures, a, b[..|b| - 1]);
    }
  }

  /**
   * What a loaded folder contributes: the output of the first handler whose
   * pattern matches its name, or nothing when none matches.
   */
  function FolderOutput(handlers: seq<LoadHandler>, name: string, files: seq<LoadedFile>): Result<seq<(Id, Handle)>>
  {
    match FirstMatch(handlers, name)
    case None => Ok([])
    case Some(k) => Transform(handlers[k], Captures(handlers[k], name).value, NamedFiles(files))
  }

  datatype PassState = PassState(pending: seq<PendingFolder>, textures: map<Id, Handle>)

  /**
   * One turn of `check_load_handlers`'s loop: a folder still loading is pushed
   * back onto the pending list, a loaded one is handed to its handler and its
   * pairs are inserted into the textures map.
   */
  function PassStep(handlers: seq<LoadHandler>, server: AssetServer, f: PendingFolder, st: PassState): Result<PassState>
  {
    if !IsLoaded(server, f.handle) then Ok(PassState(st.pending + [f], st.textures))
    else
      match FolderOutput(handlers, f.name, server[f.handle].files)
      case Panicked(p) => Panicked(p)
      case Ok(pairs) => Ok(PassState(st.pending, InsertAll(st.textures, pairs)))
  }

  /** One pass of `check_load_handlers` over the pending folders, in order. */
  function Pass(handlers: seq<LoadHandler>, server: AssetServer, folders: seq<PendingFolder>, textures: map<Id, Handle>): Result<PassState>
    decreases |folders|
  {
    if folders == [] then Ok(PassState([], textures))
    else
      match Pass(handlers, server, folders[..|folders| - 1], textures)
      case Panicked(p) => Panicked(p)
      case Ok(st) => PassStep(handlers, server, folders[|folders| - 1], st)
  }

  lemma {:induction false} PassPanicSticks(handlers: seq<LoadHandler>, server: AssetServer, folders: seq<PendingFolder>, textures: map<Id, Handle>, i: nat)
    requires i <= |folders| && Pass(handlers, server, folders[..i], textures).Panicked?
    ensures Pass(handlers, server, folders, textures) == Pass(handlers, server, folders[..i], textures)
    decreases |folders| - i
  {
    if i < |folders| {
      assert folders[..i + 1][..i] == folders[..i];
      PassPanicSticks(handlers, server, folders, textures, i + 1);
    } else {
      assert folders[..i] == folders;
    }
  }

  /** The folders not yet loaded, in their original order. */
  function StillLoading(server: AssetServer, folders: seq<PendingFolder>): (r: seq<PendingFolder>)
    ensures forall f :: f in r <==> f in folders && !IsLoaded(server, f.handle)
    decreases |folders|
  {
    if folders == [] then []
    else
      var rest := StillLoading(server, folders[..|folders| - 1]);
      var f := folders[|folders| - 1];
      assert forall g :: g in folders <==> g in folders[..|folders| - 1] || g == f by {
        assert folders == folders[..|folders| - 1] + [f];
      }
      if IsLoaded(server, f.handle) then rest else rest + [f]
  }

  /**
   * No folder handle is pending twice: `load` pushes one `load_folder` handle
   * per directory entry, and `loaded_folders.remove(..).unwrap()` would panic
   * on the second occurrence of a handle whose asset was already taken.
   */
  ghost predicate DistinctHandles(folders: seq<PendingFolder>)
  {
    forall i, j :: 0 <= i < j < |folders| ==> folders[i].handle != folders[j].handle
  }

  /** The folders pushed back keep their handles distinct. */
  lemma {:induction false} StillLoadingDistinct(server: AssetServer, folders: seq<PendingFolder>)
    requires DistinctHandles(folders)
    ensures DistinctHandles(StillLoading(server, folders))
    decreases |folders|
  {
    if folders != [] {
      var init := folders[..|folders| - 1];
      var f := folders[|folders| - 1];
      assert DistinctHandles(init);
      StillLoadingDistinct(server, init);
      var rest := StillLoading(server, init);
      if !IsLoaded(server, f.handle) {
        forall j | 0 <= j < |rest| ensures rest[j].handle != f.handle {
          assert rest[j] in init;
          var k :| 0 <= k < |init| && init[k] == rest[j];
          assert folders[k] == rest[j];
        }
        assert StillLoading(server, folders) == rest + [f];
      }
    }
  }

  /** Every pair the loaded folders emit, folder after folder. */
  function Emitted(handlers: seq<LoadHandler>, server: AssetServer, folders: seq<PendingFolder>): Result<seq<(Id, Handle)>>
    decreases |folders|
  {
    if folders == [] then Ok([])
    else
      var f := folders[|folders| - 1];
      match Emitted(handlers, server, folders[..|folders| - 1])
      case Panicked(p) => Panicked(p)
      case Ok(pairs) =>
        if !IsLoaded(server, f.handle) then Ok(pairs)
        else
          match FolderOutput(handlers, f.name, server[f.handle].files)
          case Panicked(p) => Panicked(p)
          case Ok(more) => Ok(pairs + more)
  }

  /**
   * A pass keeps exactly the folders still loading, in order, and inserts
   * every emitted pair, in order; it panics exactly when some handler does.
   */
  lemma {:induction false} PassCharacterized(handlers: seq<LoadHandler>, server: AssetServer, folders: seq<PendingFolder>, textures: map<Id, Handle>)
    ensures Pass(handlers, server, folders, textures).Ok? <==> Emitted(handlers, server, folders).Ok?
    ensures Pass(handlers, server, folders, textures).Ok? ==>
      Pass(handlers, server, folders, textures).value ==
        PassState(StillLoading(server, folders), InsertAll(textures, Emitted(handlers, server, folders).value))
    decreases |folders|
  {
    if folders != [] {
      var init := folders[..|folders| - 1];
      PassCharacterized(handlers, server, init, textures);
      var f := folders[|folders| - 1];
      if Emitted(handlers, server, init).Ok? && IsLoaded(server, f.handle) {
        var out := FolderOutput(handlers, f.name, server[f.handle].files);
        if out.Ok? {
          InsertAllAppend(textures, Emitted(handlers, server, init).value, out.value);
        }
      }
    }
  }

  /** The pass over one more folder is one more turn of the loop. */
  lemma PassSnoc(handlers: seq<LoadHandler>, server: AssetServer, folders: seq<PendingFolder>, textures: map<Id, Handle>, i: nat)
    requires i < |folders| && Pass(handlers, server, folders[..i], textures).Ok?
    ensures Pass(handlers, server, folders[..i + 1], textures) ==
      PassStep(handlers, server, folders[i], Pass(handlers, server, folders[..i], textures).value)
  {
    assert folders[..i + 1][..i] == folders[..i];
  }

  /**
   * When handler `k` is the first whose pattern matches, the folder's output is
   * that handler's transform; when none matches, the folder emits nothing.
   */
  lemma FolderOutputOfFirst(handlers: seq<LoadHandler>, name: string, files: seq<LoadedFile>, k: nat)
    requires k <= |handlers|
    requires forall j :: 0 <= j < k ==> Captures(handlers[j], name).None?
    requires k < |handlers| ==> Captures(handlers[k], name).Some?
    ensures k < |handlers| ==> FolderOutput(handlers, name, files) == Transform(handlers[k], Captures(handlers[k], name).value, NamedFiles(files))
    ensures k == |handlers| ==> FolderOutput(handlers, name, files) == Ok([])
  {
    if k < |handlers| {
      assert FirstMatch(handlers, name) == Some(k);
    }
  }

  /** Inserting one more pair extends `InsertAll` by one step. */
  lemma InsertAllStep(textures: map<Id, Handle>, pairs: seq<(Id, Handle)>, n: nat)
    requires n < |pairs|
    ensures InsertAll(textures, pairs[..n + 1]) == InsertAll(textures, pairs[..n])[pairs[n].0 := pairs[n].1]
  {
    assert pairs[..n + 1][..n] == pairs[..n];
  }

  /**
   * The dispatch inside `check_load_handlers`: tries the handlers in order and
   * runs the first whose pattern matches the folder name, then stops.
   */
  method Dispatch(handlers: seq<LoadHandler>, name: string, files: seq<LoadedFile>) returns (out: Result<seq<(Id, Handle)>>)
    ensures out == FolderOutput(handlers, name, files)
  {
    var k := 0;
    while k < |handlers|
      invariant 0 <= k <= |handlers|
      invariant forall j :: 0 <= j < k ==> Captures(handlers[j], name).None?
    {
      var captures := Captures(handlers[k], name);
      if captures.Some? {
        FolderOutputOfFirst(handlers, name, files, k);
        return Transform(handlers[k], captures.value, NamedFiles(files));
      }
      k := k + 1;
    }
    FolderOutputOfFirst(handlers, name, files, k);
    return Ok([]);
  }

  /** The insertion loop: writes the pairs into the map one after the other. */
  method InsertPairs(textures: map<Id, Handle>, pairs: seq<(Id, Handle)>) returns (r: map<Id, Handle>)
    ensures r == InsertAll(textures, pairs)
  {
    r := textures;
    var n := 0;
    while n < |pairs|
      invariant 0 <= n <= |pairs|
      invariant r == InsertAll(textures, pairs[..n])
    {
      InsertAllStep(textures, pairs, n);
      r := r[pairs[n].0 := pairs[n].1];
      n := n + 1;
    }
    assert pairs[..n] == pairs;
  }

  /** The body of `check_load_handlers`'s loop for one pending folder. */
  method HandleFolder(handlers: seq<LoadHandler>, server: AssetServer, f: PendingFolder, st: PassState) returns (r: Result<PassState>)
    ensures r == PassStep(handlers, server, f, st)
  {
    if !IsLoaded(server, f.handle) {
      return Ok(PassState(st.pending + [f], st.textures));
    }
    var out := Dispatch(handlers, f.name, server[f.handle].files);
    if out.Panicked? {
      return Panicked(out.reason);
    }
    var written := InsertPairs(st.textures, out.value);
    return Ok(PassState(st.pending, written));
  }

  /**
   * The loading pass as the system runs it: `FoldersLoading` (the pending
   * list, removed once empty) and `TexturesMap`.
   */
  class Loader {
    var pending: seq<PendingFolder>
    var loading: bool
    var textures: map<Id, Handle>

    /** Each pending folder handle occurs once. */
    ghost predicate Valid()
      reads this
    {
      DistinctHandles(pending)
    }

    /** The resources as `load` leaves them: every folder pending, no texture yet. */
    constructor (folders: seq<PendingFolder>)
      requires DistinctHandles(folders)
      ensures Valid()
      ensures pending == folders && loading && textures == map[]
    {
      pending := folders;
      loading := true;
      textures := map[];
    }

    /**
     * `check_load_handlers`: takes the pending list, pushes back each folder
     * still loading, dispatches each loaded one to the first matching handler
     * and inserts its pairs; then removes `FoldersLoading` if nothing is left.
     */
    method CheckLoadHandlers(handlers: seq<LoadHandler>, server: AssetServer) returns (outcome: Result<()>)
      requires loading && Valid()
      modifies this
      ensures Valid()
      ensures outcome.Ok? <==> Pass(handlers, server, old(pending), old(textures)).Ok?
      ensures outcome.Panicked? ==> outcome.reason == Pass(handlers, server, old(pending), old(textures)).reason
      ensures outcome.Ok? ==> pending == Pass(handlers, server, old(pending), old(textures)).value.pending
      ensures outcome.Ok? ==> textures == Pass(handlers, server, old(pending), old(textures)).value.textures
      ensures outcome.Ok? ==> loading == (pending != [])
    {
      var folders := pending;
      ghost var start := textures;
      var st := PassState([], textures);
      var i := 0;
      assert folders[..0] == [];
      while i < |folders|
        invariant 0 <= i <= |folders|
        invariant Pass(handlers, server, folders[..i], start) == Ok(st)
        invariant pending == folders
      {
        PassSnoc(handlers, server, folders, start, i);
        var next := HandleFolder(handlers, server, folders[i], st);
        if next.Panicked? {
          PassPanicSticks(handlers, server, folders, start, i + 1);
          return Panicked(next.reason);
        }
        st := next.value;
        i := i + 1;
      }
      assert folders[..i] == folders;
      PassCharacterized(handlers, server, folders, start);
      StillLoadingDistinct(server, folders);
      pending := st.pending;
      textures := st.textures;
      loading := pending != [];
      return Ok(());
    }

    /**
     * `transform_textures`: takes the textures map (leaving it empty) and builds
     * the texture tree from it, in the map's iteration order `order`.
     */
    method TransformTextures(order: seq<Id>) returns (tree: Result<TextureTree.Node>)
      requires EnumeratesKeys(order, textures)
      modifies this
      ensures old(Valid()) ==> Valid()
      ensures textures == map[] && pending == old(pending) && loading == old(loading)
      ensures tree == TextureTree.BuildTree(old(textures), order)
    {
      var taken := textures;
      textures := map[];
      tree := TextureTree.New(taken, order);
    }
  }

  // ---------------------------------------------------------------------
  // The shape of the catalog.

  /** A tile id `[tile_type, tile_variant, color, number]` or an overlay id `["overlay", name, number]`. */
  ghost predicate CatalogId(id: Id)
  {
    |id| == 4 || (|id| == 3 && id[0] == "overlay")
  }

  /** Every id the closure emits is `prefix` followed by one number. */
  lemma NumberedIdsMember(prefix: Id, files: seq<(string, Handle)>, p: (Id, Handle))
    requires NumberedIds(prefix, files).Ok? && p in NumberedIds(prefix, files).value
    ensures |p.0| == |prefix| + 1 && p.0[..|prefix|] == prefix
  {
    var out := NumberedIds(prefix, files).value;
    var i :| 0 <= i < |out| && out[i] == p;
    assert p.0 == prefix + [FileNumber(files[i].0).value];
  }

  /** Every id a registered handler emits is a tile id or an overlay id. */
  lemma FolderOutputShape(name: string, files: seq<LoadedFile>)
    requires FolderOutput(Registered, name, files).Ok?
    ensures forall p :: p in FolderOutput(Registered, name, files).value ==> CatalogId(p.0)
  {
    var out := FolderOutput(Registered, name, files);
    match FirstMatch(Registered, name)
    case None =>
    case Some(k) =>
      var caps := Captures(Registered[k], name).value;
      var named := NamedFiles(files);
      forall p | p in out.value ensures CatalogId(p.0) {
        if k == 0 {
          NumberedIdsMember([caps["tile_type"], caps["tile_variant"], caps["color"]], named, p);
        } else {
          var prefix: Id := ["overlay", caps["name"]];
          NumberedIdsMember(prefix, named, p);
          assert p.0[0] == p.0[..2][0];
        }
      }
  }

  lemma {:induction false} EmittedShape(server: AssetServer, folders: seq<PendingFolder>)
    requires Emitted(Registered, server, folders).Ok?
    ensures forall p :: p in Emitted(Registered, server, folders).value ==> CatalogId(p.0)
    decreases |folders|
  {
    if folders != [] {
      var f := folders[|folders| - 1];
      EmittedShape(server, folders[..|folders| - 1]);
      if IsLoaded(server, f.handle) {
        FolderOutputShape(f.name, server[f.handle].files);
      }
    }
  }

  /** A pass of the registered handlers keeps every key of the textures map a catalog id. */
  lemma PassKeepsCatalogShape(server: AssetServer, folders: seq<PendingFolder>, textures: map<Id, Handle>)
    requires forall id :: id in textures ==> CatalogId(id)
    requires Pass(Registered, server, folders, textures).Ok?
    ensures forall id :: id in Pass(Registered, server, folders, textures).value.textures ==> CatalogId(id)
  {
    PassCharacterized(Registered, server, folders, textures);
    var pairs := Emitted(Registered, server, folders).value;
    EmittedShape(server, folders);
    InsertAllLastWins(textures, pairs);
    forall id | id in InsertAll(textures, pairs) ensures CatalogId(id) {
      if id !in textures {
        var i :| 0 <= i < |pairs| && pairs[i].0 == id;
        assert pairs[i] in pairs;
      }
    }
  }

  /**
   * Catalog ids are prefix-free unless a tile type is itself `overlay`: ids of
   * equal length never extend one another, and a length-4 tile id extends a
   * length-3 overlay id only when it starts with `overlay`.
   */
  lemma CatalogPrefixFree(ids: set<Id>)
    requires forall id :: id in ids ==> CatalogId(id)
    requires forall id :: id in ids && |id| == 4 ==> id[0] != "overlay"
    ensures TextureTree.PrefixFree(ids)
  {
    forall a, b | a in ids && b in ids ensures !TextureTree.StrictPrefix(a, b) {
      assert |a| < |b| ==> a[0] != b[0];
    }
  }

  /** A tile folder holding one numbered file yields one tile id. */
  lemma TileFolderOutput(tileType: string, variant: string, color: string, number: string, ext: string, h: Handle)
    requires tileType != [] && AllWord(tileType) && AllAlnum(variant) && AllWord(color)
    requires number != [] && AllDigits(number) && AllWord(ext)
    ensures FolderOutput(Registered, TilePrefix + tileType + "_" + variant + "." + color, [LoadedFile(Some(number + "." + ext), h)])
      == Ok([([tileType, variant, color, number], h)])
  {
    var name := TilePrefix + tileType + "_" + variant + "." + color;
    TileCapturesOf(tileType, variant, color);
    assert FirstMatch(Registered, name) == Some(0);
    FileNumberOf([], number, ext);
    assert [] + number + "." + ext == number + "." + ext;
    var files := [LoadedFile(Some(number + "." + ext), h)];
    assert NamedFiles(files) == [(number + "." + ext, h)];
    var caps := Captures(TileFamily, name).value;
    assert caps == map["tile_type" := tileType, "tile_variant" := variant, "color" := color];
    var out := NumberedIds([tileType, variant, color], [(number + "." + ext, h)]);
    assert FolderOutput(Registered, name, files) == Transform(TileFamily, caps, NamedFiles(files)) == out;
    assert out.Ok? && |out.value| == 1;
    assert out.value[0] == ([tileType, variant, color] + [number], h);
    assert [tileType, variant, color] + [number] == [tileType, variant, color, number];
    assert out.value == [([tileType, variant, color, number], h)];
  }

  /** An overlay folder holding one numbered file yields one overlay id. */
  lemma OverlayFolderOutput(overlay: string, number: string, ext: string, h: Handle)
    requires overlay != [] && AllWord(overlay)
    requires number != [] && AllDigits(number) && AllWord(ext)
    ensures FolderOutput(Registered, OverlayPrefix + overlay + OverlaySuffix, [LoadedFile(Some(number + "." + ext), h)])
      == Ok([(["overlay", overlay, number], h)])
  {
    var name := OverlayPrefix + overlay + OverlaySuffix;
    OverlayCapturesOf(overlay);
    FolderPatternsDisjoint(name);
    assert FirstMatch(Registered, name) == Some(1);
    FileNumberOf([], number, ext);
    assert [] + number + "." + ext == number + "." + ext;
    var files := [LoadedFile(Some(number + "." + ext), h)];
    assert NamedFiles(files) == [(number + "." + ext, h)];
    var caps := Captures(OverlayFamily, name).value;
    assert caps == map["name" := overlay];
    var out := NumberedIds(["overlay", overlay], [(number + "." + ext, h)]);
    assert FolderOutput(Registered, name, files) == Transform(OverlayFamily, caps, NamedFiles(files)) == out;
    assert out.Ok? && |out.value| == 1;
    assert out.value[0] == (["overlay", overlay] + [number], h);
    assert ["overlay", overlay] + [number] == ["overlay", overlay, number];
    assert out.value == [(["overlay", overlay, number], h)];
  }

  /**
   * A tile folder whose tile type is `overlay` clashes with an overlay folder:
   * `pointy.overlay_x.1` holding `2.png` yields `["overlay", "x", "1", "2"]`
   * while `overlay_x.standard_full` holding `1.png` yields its strict prefix
   * `["overlay", "x", "1"]`, so the tree built from such a map depends on the
   * map's iteration order (`OrderMattersPanic`, `OrderMattersOverwrite`).
   */
  lemma OverlayTileClash(variant: string, color: string, number: string, ext: string, h1: Handle, h2: Handle)
    requires variant != [] && AllAlnum(variant) && AllWord(variant)
    requires color != [] && AllDigits(color) && AllWord(color)
    requires number != [] && AllDigits(number) && AllWord(ext)
    ensures FolderOutput(Registered, TilePrefix + "overlay" + "_" + variant + "." + color, [LoadedFile(Some(number + "." + ext), h1)])
      == Ok([(["overlay", variant, color, number], h1)])
    ensures FolderOutput(Registered, OverlayPrefix + variant + OverlaySuffix, [LoadedFile(Some(color + "." + ext), h2)])
      == Ok([(["overlay", variant, color], h2)])
    ensures ["overlay", variant, color] < ["overlay", variant, color, number]
  {
    TileFolderOutput("overlay", variant, color, number, ext, h1);
    OverlayFolderOutput(variant, color, ext, h2);
    assert ["overlay", variant, color, number][..3] == ["overlay", variant, color];
  }

  /**
   * From a catalog whose tile types are never `overlay`, `transform_textures`
   * builds a tree, whatever the map's iteration order, in which every id of the
   * catalog is a leaf with its handle.
   */
  lemma CatalogTree(textures: map<Id, Handle>, order: seq<Id>)
    requires EnumeratesKeys(order, textures)
    requires forall id :: id in textures ==> CatalogId(id)
    requires forall id :: id in textures && |id| == 4 ==> id[0] != "overlay"
    ensures TextureTree.BuildTree(textures, order).Ok?
    ensures forall id :: id in textures ==>
      TextureTree.Lookup(TextureTree.BuildTree(textures, order).value, id) == Some(TextureTree.Leaf(textures[id]))
  {
    CatalogPrefixFree(textures.Keys);
    TextureTree.BuildTreeLeaves(textures, order);
  }
}
