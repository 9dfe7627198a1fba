# Scene-graph Asset and shader bookkeeping, modelled in Dafny

This project models two parts of a small OpenGL rendering engine.

The first is the **Asset**, a scene-tree node that keeps a table from names to
Model nodes. A table entry is either a node of the asset's own subtree or a node
somewhere else. The model covers:

- the table operations `addModel`, `getModel`, `removeModel` and `getAllModels`;
- the identity-preserving clone. Every entry the asset reaches by a child-index
  path is repointed at the node at the same path in the copy. Every other entry
  gets an independent clone of its own;
- the animation clock, which advances only while playback is started;
- `draw`. It keeps one material per shader program and brackets the tree draw
  with the bone-transform flag.

The second is **shader bookkeeping**:

- the `ShaderInfo` key, with its order, equality and validity;
- the loaded/deleted life cycle of a `Shader`;
- the manager's `create` and `destroy`.

Files:

- `wrappers.dfy`: `Option`, standing for a nullable pointer, and `Result`,
  standing for a call that may throw.
- `scene_tree.dfy` (module `SceneTree`): the parts of the generic scene node that
  the Asset relies on. These are node identity, the parent back-reference,
  child-index paths (`At`, for `getDescendentByIndices`), the path search
  (`PathTo`, for `breadthFirstSearch`) and the structural copy (`CopyTo` and
  `Clone`, for `Node::copyTo` and `clone`). The scene-node source is not part of
  this model. These helpers are modelled from how `Asset.cpp` uses them: the copy
  preserves shape, the search returns `[]` when the node is absent, and resolution
  walks child index by child index.
- `asset.dfy` (module `Scene`): the `Asset` class, the `Material` class, the
  clone's per-entry step and loop, the animation clock and the draw helpers.
- `shader_manager.dfy` (module `ShaderManager`): `ShaderInfo`, the `Shader` class,
  the pure state machine that specifies it, and `Create`/`Destroy`.

A node is a value `Node(handle, parent, fields, children)`. Its identity, the
address of the C++ object, is `handle`: a `Handle` object whose constant `kind`
is the object's dynamic type. `dynamic_cast<Model*>` is therefore the test
`handle.kind == ModelNode`. "A different instance" means a fresh `Handle`.

The file system and the GL driver are a `GlOracle` parameter. It says whether the
file opens, which name `glCreateShader` returns, whether the compile succeeds,
and what the compile log says.

## Model

| member | source | states |
|---|---|---|
| SceneTree.PathToSound | src/scene/Asset.cpp:43-46 | a non-empty path returned by the search leads, child index by child index, to the very node that was searched for |
| SceneTree.PathToEmptyIff | src/scene/Asset.cpp:43-44 | the search returns the empty path exactly when no descendant of the asset is the node searched for |
| SceneTree.PathToFinds | src/scene/Asset.cpp:43 | where every object occurs once in the tree, the search returns exactly the path at which the node sits, so a breadth-first and any other search agree |
| SceneTree.ShapeAt | src/scene/Asset.cpp:46 | two trees of the same shape have a node at the same paths, and those nodes have the same shape (hence the same dynamic type) |
| SceneTree.CopyTo | src/scene/Asset.cpp:30 | the copy keeps the target's identity, has the original's shape and field values, links every child to its new parent, holds each object once and consists of freshly allocated nodes below the target |
| SceneTree.Clone | src/scene/Asset.cpp:54 | `model->clone()` is an unparented, freshly allocated node tree of the model's shape, holding each object once |
| SceneTree.AdoptChild | src/scene/Asset.cpp:13-16 | appending an unowned tree that shares no object with the asset as its last child keeps the asset's subtree a linked tree holding each object once |
| Scene.Asset.constructor | src/scene/Asset.cpp:61 | a new asset has no parent, no children, an empty table, playback stopped, no skeleton and no materials |
| Scene.Asset.AddModel | src/scene/Asset.cpp:4-17 | a null model changes nothing; otherwise the entry for the key becomes the model (overwriting), other entries are unchanged, and the model becomes the last child exactly when `Adopts` holds; the asset stays a tree |
| Scene.Adopts | src/scene/Asset.cpp:13 | the asset adopts only where the code as written would (asked to, and the model has no parent), and never a model already in its tree or one that contains the asset; an unparented model sharing no object with the asset is adopted exactly when asked |
| Scene.AdoptingAncestorBreaksTree | src/scene/Asset.cpp:13-16 | for an unparented model that is the asset's parent, the test as written adopts it and the asset's subtree then holds the asset itself; the corrected test refuses it |
| Scene.Asset.GetModel | src/scene/Asset.cpp:19-26 | the result is null exactly when the key is absent, and otherwise the registered model |
| Scene.Asset.AllModels | src/scene/Asset.cpp:72-75 | the returned table agrees with `GetModel` on every key |
| Scene.Asset.RemoveModel | src/scene/Asset.cpp:67-70 | only the entry for the name disappears (absent names change nothing); other entries and the child tree are unchanged |
| Scene.CloneEntry | src/scene/Asset.cpp:43-55 | a reachable model's entry is the node at its path in the copy, and the Model cast there always succeeds; an unreachable model's entry is a fresh unparented clone of the same shape |
| Scene.CloneTable | src/scene/Asset.cpp:38-56 | the clone's table has the same keys and each entry is remapped or cloned as above; every unreachable entry is an instance of its own, shared with no other entry; its whole subtree is freshly allocated and shares no node with the copy |
| Scene.Asset.Clone | src/scene/Asset.cpp:28-64 | the clone is a new asset of the same shape whose nodes are all fresh; an entry for the node at non-empty path P is the clone's node at P; any other entry is an independent clone: its whole subtree is freshly allocated, lies outside the cloned tree, and its root is shared with no other entry; no entry of the clone is an instance of the original |
| Scene.SharedEntriesStayShared | src/scene/Asset.cpp:43-48 | two entries that reference the same reachable object, whatever else their values say, are given the same node of the clone |
| Scene.TableAtSamePath | src/scene/Asset.cpp:38-56 | for every key of the table, an entry for the node at non-empty path P becomes the clone's node at P |
| Scene.ClonedEntryAtSamePath | src/scene/Asset.cpp:43-48 | if a referenced model sits at non-empty path P in the asset, the clone's entry is the clone's node at P |
| Scene.Asset.Update | src/scene/Asset.cpp:77-85 | the animation clock advances by `deltaT` when playback is started and is unchanged otherwise |
| Scene.ElapsedIsGated | src/scene/Asset.cpp:79-82 | over a series of updates the clock advances by their sum while started, and not at all while stopped |
| Scene.ElapsedConcat | src/scene/Asset.cpp:77-85 | two series of updates one after the other act as their concatenation |
| Scene.UniqueMaterials | src/scene/Asset.cpp:91-100 | the selection loop builds exactly the first-material-per-program table |
| Scene.FirstPerProgramIsFirst | src/scene/Asset.cpp:91-100 | the table has an entry for every program used; each entry is a listed material using that program, namely the first one in list order |
| Scene.ChooseBones | src/scene/Asset.cpp:102-122 | the animated matrices are chosen exactly when playback is started and a clip index is non-negative, and they are those of that clip at the current time; the bind pose otherwise |
| Scene.SwitchBonesOn | src/scene/Asset.cpp:108-121 | every chosen material gets the chosen matrices and has the bone transform switched on |
| Scene.SwitchBonesOff | src/scene/Asset.cpp:127-130 | every chosen material has the bone transform switched off and keeps its matrices |
| Scene.Asset.Draw | src/scene/Asset.cpp:88-131 | during the tree draw each chosen material's flag is on when a skeleton is attached; afterwards every chosen material has it off and holds the chosen matrices; materials that were not chosen are untouched |
| ShaderManager.LessIsStrictOrder | src/components/ShaderManager.cpp:4-14 | `operator<` (type first, ties by path) is irreflexive, asymmetric and transitive |
| ShaderManager.EqualIffEquivalent | src/components/ShaderManager.cpp:4-19 | `a == b` holds exactly when neither `a < b` nor `b < a`, and exactly when path and type are both equal |
| ShaderManager.Shader.constructor | src/components/ShaderManager.cpp:33-37 | a new shader has id 0 and is not loaded |
| ShaderManager.Deleted | src/components/ShaderManager.cpp:44-54 | after deleting, the shader is not loaded; a loaded one gets id 0; an unloaded one is unchanged; path and type are kept |
| ShaderManager.DeleteIdempotent | src/components/ShaderManager.cpp:44-54 | deleting twice is deleting once, and leaves id 0 |
| ShaderManager.Shader.DeleteShader | src/components/ShaderManager.cpp:44-54 | the shader's new state is the deleted state, and "not loaded implies id 0" is kept |
| ShaderManager.LoadStep | src/components/ShaderManager.cpp:56-103 | a loaded shader is left unchanged with a warning; success happens exactly when the file opens and compiles and sets id, path, type and loaded; a failed open throws and changes nothing; a failed compile throws with id 0, not loaded, and with no compiler log (it is fetched for name 0); an unloaded shader throws exactly when the file does not open or does not compile; "already loaded" is reported exactly for a loaded shader; "not loaded implies id 0" is kept |
| ShaderManager.Shader.Load | src/components/ShaderManager.cpp:56-103 | the shader's new state and the way the call ends are those of `LoadStep`, in the source's order of deleting, resetting and fetching the log |
| ShaderManager.LoadStepCorrected | src/components/ShaderManager.cpp:88-96 | with the log fetched before the reset, load ends in the same state and the same way, except that a failed compile of a created shader reports the compiler's log |
| ShaderManager.CompileFailureLog | src/components/ShaderManager.cpp:85-95 | the log fetched while the failed shader still exists is the compiler's log for it |
| ShaderManager.CompileLogLost | src/components/ShaderManager.cpp:90-95 | for every answer of GL, the log fetched as written is empty, while the log fetched before the reset differs from it whenever a shader object was created |
| ShaderManager.Create | src/components/ShaderManager.cpp:108-113 | `create` returns a new shader in the loaded state exactly when the file opens and compiles, and otherwise propagates the load's error, which after a failed compile carries no compiler log |
| ShaderManager.Destroy | src/components/ShaderManager.cpp:115-118 | destroying a shader runs its destructor, which deletes the GL object; destroying null does nothing |

## Left out

- `src/components/Window.cpp` is not part of this model. It is GLFW/OpenGL window, framebuffer and event plumbing.
- `src/scene/GameObject.h` is not part of this model. It declares a cached-transform component whose implementation is not available.
- The scene-node helpers (`breadthFirstSearch`, `getDescendentByIndices`, `Node::copyTo`, `clone`) are modelled from their use in `Asset.cpp`, not from their source. `PathTo` searches depth-first. `PathToFinds` shows that every search returns the same path when each object occurs once in the tree.
- `Node::update` and `Node::draw` (the traversal of the children) are not modelled. `Draw` returns, as `seen`, the flags the tree draw would observe.
- Nested assets: a child that is itself an Asset is copied as a plain node. Its own table is not modelled.
- `Asset::copyTo` into a target that is not an Asset (the cast warning at `Asset.cpp:31-36`) is not modelled. `clone` always passes a new Asset.
- The warning branch for a failed Model cast (`Asset.cpp:49-50`) has no model. `CloneEntry` proves that this branch cannot be taken.
- `Asset.h` is not part of this model. The initial values of a new asset are chosen here: playback stopped, clock 0, clip index -1, no skeleton, no materials.
- `Asset::copyTo` copies only the node and the table. Skeleton, materials and animation state are not copied, and the model follows the code. The clone therefore draws without a skeleton until one is attached.
- Iteration order of `std::map` (table keys, material pointers) is not modelled. The loops pick keys in any order, and no result depends on the order except which fresh objects are allocated.
- Table entries are value copies of the nodes, not shared references. When the asset adopts a model, the caller's copy and other entries for the same object keep the old parent. The new entry and the new child carry the new parent. An unreachable entry is cloned from its stored copy, not from the object's current subtree. The tree, not the copy, decides whether a model already has a parent there. For a model outside the asset's tree, the parent field of the caller's copy is taken as the object's parent.
- Scene.Asset.AddModel: requires the model's value to be `WellFormed`, a linked tree in which each object occurs once. A value that is not such a tree stands for no scene object.
- Scene.Asset.AddModel: for an unparented model that contains the asset (one of the asset's ancestors), the code as written adopts it and makes the asset part of its own subtree, a cycle. A value tree cannot hold a cycle, so the model registers such a model without adopting it (`Adopts`; see Findings).
- `ShaderInfo::isValid` is the predicate `IsValid`. It has no property beyond its definition, since equal keys are identical values.
- Log messages are not modelled. Warnings appear only as comments or as the `AlreadyLoaded` outcome. `ShaderInfo::toString` is left out, because it only formats log text.
- Bone-matrix values are not modelled. `getBindPoseMatrices` and `calcBoneMatrices` become the symbolic `BindPose` and `Sampled(clip, time)`. `getAnimation`'s result is unused in `draw` and is left out.
- The animation clock is a `real`. Float rounding is not modelled.
- File reading and the GL calls (`glCreateShader`, `glShaderSource`, `glCompileShader`, `glDeleteShader`, `glGetShaderiv`) are not modelled. Their outcomes come from `GlOracle`.
- `Shader::_mType` is left uninitialised by the C++ constructor. The model sets it to 0 and promises nothing about it.
- Memory management is not modelled. This includes the shader that `create` leaks when `load` throws.
- Strings are compared by character code. `std::string` compares bytes as `unsigned char`.

## Findings

| source | as written | input that shows it | evidently intended | confidence | as-written member | corrected member |
|---|---|---|---|---|---|---|
| src/components/ShaderManager.cpp:90-95 | after a failed compile, `_mShaderId` is deleted and reset to 0 before `glGetShaderInfoLog(_mShaderId, ...)`. GL rejects name 0 and writes nothing, so an uninitialised buffer is printed. `LoadStep`, `Shader.Load` and `Create` keep this order | any compile failure, e.g. name 3 with log "0:12: syntax error" (`CompileLogLost`) | fetch the info log of the failed shader before deleting it and resetting the id | high (not executed) | ShaderManager.CompileFailureLogAsWritten | ShaderManager.LoadStepCorrected |
| src/scene/Asset.cpp:13-16 | a model is adopted whenever `addAsChild` holds and it has no parent. An unparented ancestor of the asset passes that test, and adopting it makes the asset a descendant of itself | asset A whose parent is model M, M unparented; `A.addModel("m", M, true)` (`AdoptingAncestorBreaksTree`) | refuse to adopt a model that contains the asset | medium (not executed) | Scene.AdoptsAsWritten | Scene.Adopts |
