# dndrewrite core, modelled in Dafny

This project models the engine behind the dndrewrite map editor (a Bevy
application written in Rust):

- **Identifiers.** `Id` is an ordered sequence of string segments. It has `new`, `push`, `extend`, `get` and `init`, the derived lexicographic order, and a `/`-joined display form.
- **The texture tree.** `TextureNode` is either a branch or a leaf. A branch is a `BTreeMap` from segment names to children, so its children are in key order. A leaf holds an image handle. `index` looks up a path and panics when a segment is missing. `index_mut` creates the missing branches of a path and panics when it has to pass through a leaf. `new` writes one leaf per entry of a hash map.
- **The catalog loading pass.** The two load handlers turn an asset folder into `(Id, handle)` pairs. One handles tile folders (`pointy.<type>_<variant>.<color>`), the other overlay folders (`overlay_<name>.standard_full`). `check_load_handlers` polls the pending folders, hands each loaded folder to the first handler whose pattern matches, and fills the textures map. `transform_textures` turns that map into the texture tree.
- **The admin menus.** `recursive_helper` derives one menu per branch of the tree. `handle_admin` moves the breadcrumb when a button is pressed. `AdminMenu::render` replaces the button entities that the `UITracker` tracks.
- **The hex map.** `place_tile`, `place_overlay` and `place_text` update a hex's background, its three overlay slots and its text.
- **Hit points.** `Hp` has `damage`, `heal` and `set_temporary` over `u16` values.

How the model is laid out:

- **Files.** Each Rust file has a Dafny module: `id.dfy` (`Identifier`), `texture_tree.dfy` (`TextureTree`), `patterns.dfy` (`Patterns`, the three regular expressions), `loading.dfy` (`Loading`), `admin.dfy` (`AdminMenus`), `world.dfy` (`Ecs`, the part of the entity world the core touches), `admin_menu.dfy` (`Render`), `map.dfy` (`HexMap`) and `attributes.dfy` (`Attributes`).
- **Panics.** Every `unwrap`, `panic!` and `unreachable!` the core can reach becomes the `Panicked(reason)` case of a `Result`.
- **Stateful code.** State the source updates in place is a class whose methods have `modifies` clauses and loops with invariants. Examples are `Id::push`, the loading resources, the admin menu map, the breadcrumb, the UI tracker, the world, the map and `Hp`. Each method's ensures give its new state, either as a specification function of the old state (whose properties are proved as lemmas) or in closed form.
- **Pure code.** Pure code is functions and lemmas. Examples are the handler closures, the tree operations as values and the menu derivation.

In three places the code behaves in a way a reader might not expect; the model follows the code:

- A file whose name does not match `(?<number>\d+)\.\w*$` is not dropped. The handler's `unwrap` panics, so `NumberedIds` returns `Panicked(BadFileName)`.
- `place_overlay` and `place_text` overwrite their slot without despawning the entity it held. Only `place_tile` despawns the old background. Both do nothing on a hex that has no tile.
- A branch's representative texture is the texture of its first *button*. Children whose subtree has no leaf have no button. So when the first child is an empty branch, the texture comes from a later child, not from descending always through the first child.

## Model

| member | source | states |
|---|---|---|
| Identifier.New | src/model/id.rs:14-16 | the id has exactly the given segments, as many of them and in the same order |
| Identifier.Extend | src/model/id.rs:22-26 | the result is one segment longer, its last segment is `value`, its other segments are the receiver's, and the receiver is a strict prefix of it |
| Identifier.Get | src/model/id.rs:28-30 | `Some` exactly when `index < len`, and then the segment at `index` |
| Identifier.Init | src/model/id.rs:32-36 | the root stays the root; any other id loses exactly its last segment |
| Identifier.InitExtend | src/model/id.rs:22-36 | `extend(v).init()` is the original id, for every id and segment |
| Identifier.ExtendInit | src/model/id.rs:22-36 | a non-empty id is `init()` extended by its last segment |
| Identifier.InitNPrefix | src/model/id.rs:32-36 | `n` applications of `init` keep the first `len - n` segments |
| Identifier.InitNToRoot | src/model/id.rs:32-36 | one `init` per segment leads back to the root |
| Identifier.MutableId.constructor | src/model/id.rs:14-16 | a mutable id starts as `Id::new` of the given segments |
| Identifier.MutableId.Push | src/model/id.rs:18-20 | `push` appends in place: the length grows by one, the earlier segments are untouched, and the result equals `extend` |
| Identifier.StrLessIrreflexive | src/model/id.rs:1-2 | no segment is less than itself under Rust's `String` order |
| Identifier.StrLessTransitive | src/model/id.rs:1-2 | the segment order is transitive |
| Identifier.StrLessTotal | src/model/id.rs:1-2 | any two distinct segments are ordered one way or the other |
| Identifier.IdLessIrreflexive | src/model/id.rs:1-2 | the derived lexicographic `Ord` of `Id` is irreflexive |
| Identifier.IdLessTransitive | src/model/id.rs:1-2 | the derived `Ord` of `Id` is transitive |
| Identifier.IdLessTotal | src/model/id.rs:1-2 | any two distinct ids are ordered one way or the other |
| Identifier.PrefixIsLess | src/model/id.rs:1-2 | a strict prefix comes first, so `extend` moves forward in the order |
| Identifier.DisplayRoot | dndrewrite_app/src/model/id.rs:40-44 | the root displays as the empty string |
| Identifier.DisplaySingle | dndrewrite_app/src/model/id.rs:40-44 | a one-segment id displays as that segment |
| Identifier.DisplayExtend | dndrewrite_app/src/model/id.rs:23-44 | for a non-empty id, displaying `extend(s)` appends `/` and `s` |
| Identifier.DisplayNotInjective | dndrewrite_app/src/model/id.rs:40-44 | `["a/b"]` and `["a", "b"]` display alike: a segment may itself contain the separator |
| Patterns.FileNumber | src/model/loading.rs:31 | a non-empty run of digits, at the start of the leftmost match: not preceded by a digit, followed by a dot and then only word characters up to the end |
| Patterns.FileNumberMatches | src/model/loading.rs:31 | there is a number exactly when some digit is directly followed by a dot that only word characters follow up to the end |
| Patterns.FileNumberOf | src/model/loading.rs:31 | text not ending in a digit, then digits, a dot and an extension yields exactly those digits |
| Patterns.TileCaptures | src/model/loading.rs:35 | a match captures exactly `tile_type`, `tile_variant` and `color`; the name is `pointy.` type `_` variant `.` color; the type is a non-empty run of word characters, the variant alphanumeric and the color word characters |
| Patterns.TileCapturesOf | src/model/loading.rs:35 | every name built that way matches with exactly those captures, even when the type itself holds underscores |
| Patterns.OverlayCaptures | src/model/loading.rs:50 | a match captures exactly `name`, a non-empty run of word characters, and the folder name is `overlay_` name `.standard_full` |
| Patterns.OverlayCapturesOf | src/model/loading.rs:50 | every such name matches, with that capture |
| Patterns.FolderPatternsDisjoint | src/model/loading.rs:35-50 | no folder name matches both folder patterns |
| TextureTree.LeafOf | src/model/texture_tree.rs:42-44 | `leaf()` is `Some` exactly on a leaf, with its handle |
| TextureTree.BranchOf | src/model/texture_tree.rs:46-48 | `branch()` is `Some` exactly on a branch, with its entries |
| TextureTree.LeafXorBranch | src/model/texture_tree.rs:42-48 | exactly one of `leaf()` and `branch()` is `Some` |
| TextureTree.GetBranch | src/model/texture_tree.rs:24-27 | `None` on a leaf; on a branch, `Some` exactly when a child has that name, and then that child (also `get_branch_mut`, lines 37-40) |
| TextureTree.Contains | src/model/texture_tree.rs:29-35 | `false` on a leaf; `true` exactly when `get_branch` finds the child |
| TextureTree.InsertBranch | src/model/texture_tree.rs:19-22 | panics on a leaf; `or_insert` keeps an existing child (the node is unchanged) and otherwise adds the new one; every other child is unchanged |
| TextureTree.InsertKeepsSorted | src/model/texture_tree.rs:21 | inserting a new key at its place keeps the branch in strictly increasing key order |
| TextureTree.LookupAppend | src/model/texture_tree.rs:58-64 | looking up `p + q` is looking up `p` and then `q` from the node found |
| TextureTree.PrefixesAreBranches | src/model/texture_tree.rs:58-64 | every strict prefix of a path that resolves is a branch |
| TextureTree.Index | src/model/texture_tree.rs:58-64 | the loop succeeds exactly when the path resolves, and returns that node; the empty id gives the root; otherwise it panics on the missing child |
| TextureTree.Walk | src/model/texture_tree.rs:71-79 | one step of `index_mut`: panics on a leaf; otherwise the result is a branch holding `name`, whose child is the existing one or a new empty branch, with every other child unchanged |
| TextureTree.AssignAtPanics | src/model/texture_tree.rs:68-83 | `root[&id] = v` panics exactly when a leaf lies at a strict prefix of `id` |
| TextureTree.AssignAtLookup | src/model/texture_tree.rs:68-83 | after `root[&id] = v`: below `id` the tree is `v`, every strict prefix of `id` is a branch, and every path that diverges from `id` sees the old tree |
| TextureTree.AssignAtFound | src/model/texture_tree.rs:68-83 | the node written at `id` is found there |
| TextureTree.AssignLeafReplacesSubtree | src/model/texture_tree.rs:14 | writing a leaf where a subtree was makes every longer path below it unresolvable |
| TextureTree.AssignCreatesEmptyBranches | src/model/texture_tree.rs:71-79 | each branch `index_mut` creates holds exactly one child, the next segment of the path |
| TextureTree.CreatedPathIsSingleton | src/model/texture_tree.rs:78 | below an empty branch, assignment succeeds and creates a chain of single-child branches |
| TextureTree.AssignAtWf | src/model/texture_tree.rs:68-83 | path assignment keeps every branch in strictly increasing key order |
| TextureTree.New | src/model/texture_tree.rs:11-17 | the loop yields `BuildTree`: a leaf is written at each key in the map's iteration order, and the first panic ends it |
| TextureTree.BuildTreeLeaves | src/model/texture_tree.rs:11-17 | for a prefix-free key set the build never panics, keeps key order, finds every key as a leaf with its handle, and has no other leaves |
| TextureTree.AssignLeafStep | src/model/texture_tree.rs:13-15 | a leaf written at an id unrelated by prefix to every existing leaf is found there, and every other leaf is kept |
| TextureTree.OrderMattersPanic | src/model/texture_tree.rs:11-17 | with `a` iterated before `a/b`, the build panics |
| TextureTree.OrderMattersOverwrite | src/model/texture_tree.rs:11-17 | with `a/b` iterated before `a`, the build succeeds, `a` is a leaf and `a/b` is gone |
| Loading.NumberedIds | src/model/loading.rs:40-46 | the closure succeeds exactly when every file name has a number, and panics otherwise; it emits one pair per file, in order, namely the prefix extended by the file's number, with the file's handle |
| Loading.TileHandlerOutput | src/model/loading.rs:36-46 | the tile handler emits `[tile_type, tile_variant, color, number]` per file, one pair per file, and panics exactly when a file name has no number |
| Loading.OverlayHandlerOutput | src/model/loading.rs:51-59 | the overlay handler emits `["overlay", name, number]` per file, one pair per file, and panics exactly when a file name has no number |
| Loading.FirstMatch | src/model/loading.rs:80-81 | the index of the first handler whose pattern matches, with none matching before it; `None` exactly when no handler matches |
| Loading.NamedFiles | src/model/loading.rs:89-99 | the files that have a file name, each with its handle; files without one are left out |
| Loading.InsertAllLastWins | src/model/loading.rs:101-103 | after the insertions the keys are the old keys plus the emitted ids; an id holds the handle of its last pair; ids no pair names keep their handle |
| Loading.StillLoading | src/model/loading.rs:73-78 | exactly the pending folders that are not loaded yet |
| Loading.PassCharacterized | src/model/loading.rs:73-105 | a pass succeeds exactly when no handler panics; then it keeps exactly the folders still loading, in order, and inserts every emitted pair, in order |
| Loading.PassPanicSticks | src/model/loading.rs:73-105 | once a folder's handler panics, the rest of the pass does not matter |
| Loading.FolderOutputOfFirst | src/model/loading.rs:80-105 | only the first matching handler's transform is applied; a folder that matches no handler contributes nothing |
| Loading.Dispatch | src/model/loading.rs:80-105 | the handler loop returns the folder's output, the first matching handler's transform |
| Loading.InsertPairs | src/model/loading.rs:101-103 | the insertion loop yields `InsertAll`, whose effect `InsertAllLastWins` states |
| Loading.HandleFolder | src/model/loading.rs:73-105 | one turn of the loop: a folder still loading goes back on the pending list; a loaded one is dispatched and its pairs inserted |
| Loading.Loader.constructor | src/model/loading.rs:11-26 | after `load` every folder is pending, each folder handle once, and no texture is known |
| Loading.Loader.CheckLoadHandlers | src/model/loading.rs:65-112 | the new pending list and textures map are those of the pass, or the pass's panic; `FoldersLoading` is removed exactly when nothing is pending; no folder handle becomes pending twice, so the `remove(..).unwrap()` at line 79 always finds the folder |
| Loading.Loader.TransformTextures | src/model/loading.rs:114-123 | the textures map is taken (left empty) and the tree is the one built from it in its iteration order |
| Loading.FolderOutputShape | src/model/loading.rs:28-61 | every id a registered handler emits has four segments, or three starting with `overlay` |
| Loading.PassKeepsCatalogShape | src/model/loading.rs:65-112 | a pass keeps every key of the textures map in that shape |
| Loading.CatalogPrefixFree | src/model/loading.rs:28-61 | such ids are prefix-free as long as no tile type is `overlay` |
| Loading.TileFolderOutput | src/model/loading.rs:34-48 | a tile folder holding one numbered file yields exactly its tile id |
| Loading.OverlayFolderOutput | src/model/loading.rs:49-61 | an overlay folder holding one numbered file yields exactly its overlay id |
| Loading.OverlayTileClash | src/model/loading.rs:28-61 | a tile folder whose type is `overlay` can emit an id of which an overlay id is a strict prefix |
| Loading.CatalogTree | src/model/loading.rs:114-123 | from a catalog without a tile type `overlay`, the tree is built in any iteration order and holds every id as a leaf with its handle |
| AdminMenus.BackUndoesDescend | dndrewrite_app/src/view/ui.rs:168 | back after a descent returns to the parent; back at the root stays at the root; a descent always moves |
| AdminMenus.ButtonsExact | dndrewrite_app/src/app/admin.rs:27-41 | the buttons are exactly the buttons of the children whose subtree yields a texture, and there are no more of them than children |
| AdminMenus.ButtonsMeaning | dndrewrite_app/src/app/admin.rs:28-39 | each button carries a child's name and that subtree's texture; it stays put for a leaf child and descends into a branch child |
| AdminMenus.ButtonsInKeyOrder | dndrewrite_app/src/app/admin.rs:27 | the buttons' names are strictly increasing: the menu keeps the branch's key order |
| AdminMenus.RepresentativeIffLeaf | dndrewrite_app/src/app/admin.rs:15-46 | a subtree yields a texture exactly when it holds a leaf |
| AdminMenus.RepresentativeIsALeaf | dndrewrite_app/src/app/admin.rs:42-45 | the texture a subtree yields is the handle of one of its leaves |
| AdminMenus.MenusCorrect | dndrewrite_app/src/app/admin.rs:15-46 | the menus recorded from `id` are keyed exactly by the ids of the subtree's branches, each with its branch's menu, and by nothing outside `id` |
| AdminMenus.ChildMenusCorrect | dndrewrite_app/src/app/admin.rs:27-41 | the children record menus exactly below their own ids, one per branch of each child |
| AdminMenus.RootMenuOfTree | dndrewrite_app/src/app/admin.rs:47-50 | the root menu is keyed by the empty id, and exists exactly when the root is a branch |
| AdminMenus.NavigationStaysInMenus | dndrewrite_app/src/app/admin.rs:84-92 | from a breadcrumb that has a menu, back or any button of that menu leads to a breadcrumb that has a menu, so the `unwrap` is never reached |
| AdminMenus.MenuTable.FromTree | dndrewrite_app/src/app/admin.rs:47-50 | `from_world` records the menus of the whole tree |
| AdminMenus.MenuTable.RecursiveHelper | dndrewrite_app/src/app/admin.rs:15-46 | the recursion returns the node's representative texture and adds exactly the node's menus to the map |
| AdminMenus.CurrentFromTree | dndrewrite_app/src/app/admin.rs:54-61 | the first current menu exists exactly when the root is a branch, and is the root's menu |
| AdminMenus.Navigator.constructor | src/app/resources.rs:14-15 | the breadcrumb starts at the empty id |
| AdminMenus.Navigator.Press | dndrewrite_app/src/app/admin.rs:84-93 | the breadcrumb becomes `on_click(breadcrumb)`; if that does not change it, nothing changes and nothing is queued; otherwise the new menu becomes current and is queued, or the lookup panics, before any change, when it is missing; from a consistent state with a menu for the target it stays consistent |
| Ecs.Without | src/app/admin_menu.rs:18 | the children list loses exactly the despawned entity |
| Ecs.World.Spawn | src/app/admin_menu.rs:22-35 | a fresh entity carrying the component; nothing else changes |
| Ecs.World.Despawn | src/app/admin_menu.rs:18 | the entity stops being live and leaves every children list |
| Ecs.World.PushChildren | src/app/admin_menu.rs:38 | the kids are appended to the parent's children, in order |
| Render.UITracker.constructor | src/app/resources.rs:30-37 | the tracker starts with its bar and back button and no buttons, and tracks no entity twice and never the bar |
| Render.DespawnAllKeeps | src/app/admin_menu.rs:17-19 | despawning a run of entities removes exactly them from every children list, keeping the order |
| Render.BarAfterRender | src/app/admin_menu.rs:17-38 | the admin bar ends as the back button followed by the new buttons: the back button is never despawned |
| Render.DespawnTracked | src/app/admin_menu.rs:17-19 | every tracked button is despawned and nothing else |
| Render.SpawnButtons | src/app/admin_menu.rs:20-37 | one fresh entity per menu button, in order, carrying that button |
| Render.Render | src/app/admin_menu.rs:12-41 | the old buttons are despawned; one fresh entity per menu button is spawned in menu order and appended to the admin bar; the tracker then holds exactly those, each once, so two renders of one menu track the same images; every other entity and its component is kept |
| HexMap.LayerOfNames | src/map/map.rs:43-48 | the slot is the layer named by segment 1; an id shorter than two segments or with another name there panics |
| HexMap.OverlayIdLayer | src/map/map.rs:43-48 | an overlay id `["overlay", layer, number]` picks that layer's slot |
| HexMap.WithLayer | src/map/map.rs:49 | exactly the chosen slot is set |
| HexMap.LeafTextureAtLeaves | src/map/map.rs:18 | `texture_tree[&id].leaf().unwrap()` succeeds exactly at a leaf, with its handle |
| HexMap.LeafTextureOfBuiltTree | src/map/map.rs:18 | in a tree built from a prefix-free map, every key's texture is found |
| HexMap.Map.constructor | src/map/resources.rs:9-13 | the default map has no tile and no combatant, so it refers to no entity of any world |
| HexMap.Map.PlaceTile | src/map/map.rs:10-28 | succeeds exactly when `id` is a leaf; spawns one sprite; on an occupied hex it despawns the old background and keeps overlays and text; on an empty hex it inserts a tile with no overlays and no text; no other hex changes; only the despawn touches the children lists; every entity the map refers to stays one the world has spawned |
| HexMap.Map.PlaceOverlay | src/map/map.rs:30-50 | does nothing on a hex without a tile; otherwise it spawns one sprite and sets only the slot segment 1 names, without despawning the old one; it panics when there is no leaf or no valid layer; the children lists are untouched and every entity the map refers to stays one the world has spawned |
| HexMap.Map.PlaceText | src/map/map.rs:52-65 | does nothing on a hex without a tile; otherwise it spawns one text entity and overwrites the tile's text without despawning; every entity the map refers to stays one the world has spawned |
| Attributes.Damaged | dndrewrite_app/src/map/attributes.rs:18-28 | temporary points absorb `min(amount, temporary)`; the rest comes off `current`, stopping at 0; down exactly when `current` is 0; neither value grows; the total lost is `min(amount, current + temporary)` |
| Attributes.HealWrapLowersCurrent | dndrewrite_app/src/map/attributes.rs:30-32 | as written, a release build heals 10 by 65530 down to 4 |
| Attributes.HealDebugPanicsOnOverflow | dndrewrite_app/src/map/attributes.rs:30-32 | a debug build panics exactly when `current + amount` leaves the `u16` range, even when the capped result would fit |
| Attributes.Healed | dndrewrite_app/src/map/attributes.rs:30-32 | the intended result `min(max, current + amount)`: never above `max`, never lowering a current within `max`, and equal to both builds' results whenever the sum fits |
| Attributes.HealAboveMaximum | dndrewrite_app/src/map/attributes.rs:30-32 | healing a combatant above its maximum lowers it to the maximum |
| Attributes.Hp.constructor | dndrewrite_app/src/map/attributes.rs:11-15 | the three fields take the given values |
| Attributes.Hp.Damage | dndrewrite_app/src/map/attributes.rs:18-28 | the new fields and the result are those of `Damaged`; `max` is untouched |
| Attributes.Hp.Heal | dndrewrite_app/src/map/attributes.rs:30-32 | `current` becomes `Healed`; `max` and `temporary` are untouched |
| Attributes.Hp.SetTemporary | dndrewrite_app/src/map/attributes.rs:34-36 | only `temporary` changes, to the given amount |

## Left out

- Loading.Loader.CheckLoadHandlers: the panic of `loaded_folders.remove(..).unwrap()` (src/model/loading.rs:79) is not modelled as an outcome; it needs a folder handle pending twice, which the `Loader` invariant rules out, since `load` pushes one handle per directory entry.
- `load` reads the `assets` directory and calls `load_folder`. That is I/O: the pending folders are the `Loader` constructor's input, and the asset server is a map from folder handles to "still loading" or "loaded with these files".
- The regular-expression engine is not modelled in general. The three patterns are written out as string functions, with `\d` and `\w` in their ASCII sense; Unicode digits and word characters are left out. `Regex::new(..).unwrap()` never fails on these constant patterns.
- The capture-name loop copies every capture that took part in the match. Both folder patterns always capture every group, so the map the transforms receive holds all their keys; `MissingCapture` exists only for the general transform.
- A hash map's iteration order is unspecified. It is an input everywhere: the file map of a folder, the textures map in `TextureNode::new`, and the admin menu map. Duplicate file names collapsing in the `HashMap<String, _>` are not modelled.
- `get_branch_mut` is the same lookup as `get_branch` over a value tree. `index_mut`'s mutable references are modelled by rebuilding the path (`AssignAt`), so aliasing of the returned reference is not captured. `TextureNode::result` is the node itself.
- TextureTree.New: its ensures only ties the result to `BuildTree`. What the tree then holds for a prefix-free map is stated by `BuildTreeLeaves`.
- `Commands` are applied at once rather than at the end of the frame. Deferred application changes no state the model tracks.
- `despawn_recursive` is modelled as the despawn of an entity without descendants, since the tracked button entities have none. The `entity_mut` panic on a tracked button that is not live is a precondition of `Render.Render`; that no button is tracked twice, and that the admin bar is not a tracked button, is the `UITracker` invariant.
- Render.Render: the `entity_mut(admin_bar)` panic at src/app/admin_menu.rs:38 is not modelled as an outcome; the admin bar being live is a precondition, and `Render.Render` ensures it still holds afterwards, since the core despawns only tracked buttons and map backgrounds.
- `CurrentAdminMenu::from_world` also renders the root menu; that render is `Render.Render`.
- Hovering, the cursor icon and the window lookup in `handle_admin` are window side effects. Styles, `Interaction` and `RelativeCursorPosition` components are not modelled.
- The `Hp` constructor is not part of the source (its fields are private and no constructor is shown); the model adds one so the methods can be used. The combatants list of `Map` is carried but not used by any operation.
- Attributes.Hp.Heal: models the evidently intended `min(max, current + amount)` without overflow, not the `u16` addition as written (see Findings); `HealAsWritten` and `HealDebug` model the as-written release and debug builds.
- Logging (`info!`, `error!`) and the `AppLoaded` marker resource are not modelled.
- Sprite positions, z-layers and text styles in `map.rs` are rendering details and are not modelled.

## Findings

| source | as written | input that shows it | evidently intended | confidence | as-written member | corrected member |
|---|---|---|---|---|---|---|
| dndrewrite_app/src/map/attributes.rs:31 | `self.max.min(self.current + amount)` adds two `u16` values before capping: a release build wraps modulo 2^16, a debug build panics | `current = 10`, `max = 100`, `amount = 65530` heals down to 4 in release; `current = 100`, `max = 100`, `amount = 65500` panics in debug | `current` becomes `min(max, current + amount)` with the sum taken without overflow (e.g. `saturating_add`) | not executed | Attributes.HealWrapLowersCurrent | Attributes.Healed |
