/**
 * An Asset: a scene-tree node that also holds a table from names to Model
 * nodes, either inside its own subtree or elsewhere; its identity-preserving
 * clone; the gating of its animation clock; and its draw, which shares one
 * material per shader program and brackets the tree draw with the
 * bone-transform flag.
 */
module Scene {
  import opened Wrappers
  import opened SceneTree

  /** The identity of a compiled shader program (a `const ShaderProgram*`). */
  type ProgramId = nat

  /**
   * The bone matrices handed to a material: the skeleton's bind pose, or the
   * matrices the skeleton computes for a clip at an elapsed time. The matrices
   * themselves are the skeleton's business; only which set was chosen matters.
   */
  datatype BoneMatrices = BindPose | Sampled(clip: int, atMs: real)

  /** A material: the program it renders with and the two settings that draw changes. */
  class Material {
    const program: ProgramId
    var boneMatrices: Option<BoneMatrices>
    var useBoneTransform: bool

    constructor (program: ProgramId)
      ensures this.program == program && boneMatrices == None && !useBoneTransform
    {
      this.program := program;
      boneMatrices := None;
      useBoneTransform := false;
    }
  }

  /** For each program used in `mats`, the material first seen with it: what draw builds in `uniqueMats`. */
  function FirstPerProgram(mats: seq<Material>): map<ProgramId, Material>
  {
    if mats == [] then map[]
    else
      var earlier := FirstPerProgram(mats[..|mats| - 1]);
      var last := mats[|mats| - 1];
      if last.program in earlier then earlier else earlier[last.program := last]
  }

  /** `mats[i]` is the first material in `mats` that uses its program. */
  ghost predicate FirstUse(mats: seq<Material>, i: int)
    requires 0 <= i < |mats|
  {
    forall j :: 0 <= j < i ==> mats[j].program != mats[i].program
  }

  /**
   * Exactly one material per distinct program, namely the first one in order:
   * every program used in `mats` has an entry, each entry is a material of
   * `mats` that uses that program, and it is the first such material.
   */
  lemma {:induction false} FirstPerProgramIsFirst(mats: seq<Material>)
    ensures forall i :: 0 <= i < |mats| ==> mats[i].program in FirstPerProgram(mats)
    ensures forall p :: p in FirstPerProgram(mats) ==>
      FirstPerProgram(mats)[p] in mats && FirstPerProgram(mats)[p].program == p
    ensures forall i :: 0 <= i < |mats| && FirstUse(mats, i) ==>
      FirstPerProgram(mats)[mats[i].program] == mats[i]
  {
    if mats != [] {
      var init := mats[..|mats| - 1];
      FirstPerProgramIsFirst(init);
      var r, earlier := FirstPerProgram(mats), FirstPerProgram(init);
      var last := mats[|mats| - 1];
      assert forall i :: 0 <= i < |init| ==> init[i] == mats[i];
      forall i | 0 <= i < |mats| && FirstUse(mats, i)
        ensures r[mats[i].program] == mats[i]
      {
        if i < |init| {
          assert FirstUse(init, i);
        } else {
          assert last.program !in earlier;
        }
      }
    }
  }

  /** The selection loop of draw: one material per program, the first in list order. */
  method UniqueMaterials(mats: seq<Material>) returns (unique: map<ProgramId, Material>)
    ensures unique == FirstPerProgram(mats)
  {
    unique := map[];
    var i := 0;
    while i < |mats|
      invariant 0 <= i <= |mats|
      invariant unique == FirstPerProgram(mats[..i])
    {
      var mat := mats[i];
      if mat.program !in unique {
        unique := unique[mat.program := mat];
      }
      assert mats[..i + 1][..i] == mats[..i];
      i := i + 1;
    }
    assert mats[..i] == mats;
  }

  /** No two entries share a material: each is keyed by its own program. */
  ghost predicate KeyedByProgram(unique: map<ProgramId, Material>)
  {
    forall p :: p in unique ==> unique[p].program == p
  }

  /** Hand `bones` to every chosen material and switch bone transforms on. */
  method SwitchBonesOn(unique: map<ProgramId, Material>, bones: BoneMatrices)
    requires KeyedByProgram(unique)
    modifies unique.Values
    ensures forall p :: p in unique ==>
      unique[p].useBoneTransform && unique[p].boneMatrices == Some(bones)
  {
    var todo := unique.Keys;
    while todo != {}
      invariant todo <= unique.Keys
      invariant forall p :: p in unique && p !in todo ==>
        unique[p].useBoneTransform && unique[p].boneMatrices == Some(bones)
      decreases todo
    {
      var p :| p in todo;
      unique[p].boneMatrices := Some(bones);
      unique[p].useBoneTransform := true;
      todo := todo - {p};
    }
  }

  /** Switch bone transforms off on every chosen material, leaving its bone matrices. */
  method SwitchBonesOff(unique: map<ProgramId, Material>)
    requires KeyedByProgram(unique)
    modifies unique.Values
    ensures forall p :: p in unique ==>
      !unique[p].useBoneTransform && unique[p].boneMatrices == old(unique[p].boneMatrices)
  {
    var todo := unique.Keys;
    while todo != {}
      invariant todo <= unique.Keys
      invariant forall p :: p in unique && p !in todo ==> !unique[p].useBoneTransform
      invariant forall p :: p in unique ==> unique[p].boneMatrices == old(unique[p].boneMatrices)
      decreases todo
    {
      var p :| p in todo;
      unique[p].useBoneTransform := false;
      todo := todo - {p};
    }
  }

  /** Draw-time choice of bone matrices: the running clip while playback is on and a clip is selected, else the bind pose. */
  function ChooseBones(started: bool, clip: int, elapsedMs: real): (b: BoneMatrices)
    ensures b.Sampled? <==> started && clip >= 0
    ensures b.Sampled? ==> b == Sampled(clip, elapsedMs)
  {
    if started && clip >= 0 then Sampled(clip, elapsedMs) else BindPose
  }

  /** The animation clock after one update of `deltaMs`. */
  function Tick(started: bool, elapsedMs: real, deltaMs: real): real
  {
    if started then elapsedMs + deltaMs else elapsedMs
  }

  /** The animation clock after a series of updates, in order. */
  function Elapsed(started: bool, elapsedMs: real, deltas: seq<real>): real
    decreases |deltas|
  {
    if deltas == [] then elapsedMs else Elapsed(started, Tick(started, elapsedMs, deltas[0]), deltas[1..])
  }

  function Sum(deltas: seq<real>): real
    decreases |deltas|
  {
    if deltas == [] then 0.0 else deltas[0] + Sum(deltas[1..])
  }

  /** The clock advances by the sum of all updates while playback runs, and not at all otherwise. */
  lemma {:induction false} ElapsedIsGated(started: bool, elapsedMs: real, deltas: seq<real>)
    ensures Elapsed(started, elapsedMs, deltas) == if started then elapsedMs + Sum(deltas) else elapsedMs
    decreases |deltas|
  {
    if deltas != [] {
      ElapsedIsGated(started, Tick(started, elapsedMs, deltas[0]), deltas[1..]);
    }
  }

  /** Updates compose: running two series one after the other is running their concatenation. */
  lemma {:induction false} ElapsedConcat(started: bool, elapsedMs: real, first: seq<real>, second: seq<real>)
    ensures Elapsed(started, elapsedMs, first + second)
         == Elapsed(started, Elapsed(started, elapsedMs, first), second)
    decreases |first|
  {
    if first == [] {
      assert first + second == second;
    } else {
      assert (first + second)[0] == first[0];
      assert (first + second)[1..] == first[1..] + second;
      ElapsedConcat(started, Tick(started, elapsedMs, first[0]), first[1..], second);
    }
  }

  /** Asset::copyTo finds `model` in `root` by a non-empty path. */
  ghost predicate Reachable(root: Node, model: Node)
  {
    PathTo(root, model.handle) != []
  }

  /**
   * `entry` is what the clone of an asset rooted at `root` (whose copy is
   * `copy`) holds for `model`: the node at the same path in the copy when the
   * model is reachable, otherwise an unparented copy of the model.
   */
  ghost predicate ClonedEntry(root: Node, copy: Node, model: Node, entry: Node)
  {
    if Reachable(root, model) then At(copy, PathTo(root, model.handle)) == Some(entry)
    else entry.parent == None && ShapeOf(entry) == ShapeOf(model)
  }

  /** One step of Asset::copyTo's loop: the entry the clone gets for `model`. */
  method CloneEntry(root: Node, copy: Node, model: Node) returns (entry: Node)
    requires ShapeOf(copy) == ShapeOf(root) && model.handle.kind == ModelNode
    ensures ClonedEntry(root, copy, model, entry) && entry.handle.kind == ModelNode
    ensures Reachable(root, model) ==> entry.handle in Handles(copy)
    ensures !Reachable(root, model) ==> fresh(Handles(entry))
  {
    var path := PathTo(root, model.handle);
    if |path| > 0 {
      var found := At(copy, path);
      // The copy has the asset's shape, so the Model cast in Asset::copyTo,
      // guarded there by a warning, always succeeds.
      assert found.Some? && found.value.handle.kind == ModelNode by {
        PathToSound(root, model.handle);
        ShapeAt(root, copy, path);
        assert ShapeOf(At(root, path).value).kind == ModelNode;
      }
      AtInHandles(copy, path);
      entry := found.value;
    } else {
      entry := SceneTree.Clone(model);
      assert entry.handle.kind == ShapeOf(entry).kind;
    }
  }

  /**
   * The loop of Asset::copyTo: the table of the clone of an asset rooted at
   * `root`, whose structural copy is `copy`, entry by entry.
   */
  method CloneTable(root: Node, copy: Node, models: map<string, Node>) returns (table: map<string, Node>)
    requires ShapeOf(copy) == ShapeOf(root)
    requires forall k :: k in models ==> models[k].handle.kind == ModelNode
    ensures table.Keys == models.Keys
    ensures forall k :: k in table ==> table[k].handle.kind == ModelNode
    ensures forall k :: k in models ==> ClonedEntry(root, copy, models[k], table[k])
    ensures forall k :: k in table && Reachable(root, models[k]) ==> table[k].handle in Handles(copy)
    ensures forall k :: k in table && !Reachable(root, models[k]) ==>
      fresh(table[k].handle) && fresh(Handles(table[k])) && Handles(table[k]) !! Handles(copy)
    ensures forall k1, k2 :: k1 in table && k2 in table && k1 != k2 && !Reachable(root, models[k1]) ==>
      table[k1].handle != table[k2].handle
  {
    table := map[];
    var pending := models.Keys;
    while pending != {}
      invariant pending <= models.Keys
      invariant table.Keys == models.Keys - pending
      invariant forall k :: k in table ==> table[k].handle.kind == ModelNode
      invariant forall k :: k in table ==> ClonedEntry(root, copy, models[k], table[k])
      invariant forall k :: k in table && Reachable(root, models[k]) ==> table[k].handle in Handles(copy)
      invariant forall k :: k in table && !Reachable(root, models[k]) ==>
        fresh(table[k].handle) && fresh(Handles(table[k])) && Handles(table[k]) !! Handles(copy)
      invariant forall k1, k2 :: k1 in table && k2 in table && k1 != k2 && !Reachable(root, models[k1]) ==>
        table[k1].handle != table[k2].handle
      decreases pending
    {
      var key :| key in pending;
      label Before:
      var entry := CloneEntry(root, copy, models[key]);
      if !Reachable(root, models[key]) {
        // The new clone was allocated just now: no earlier entry and no node of the copy is it.
        assert forall k :: k in table ==> old@Before(allocated(table[k].handle));
        assert old@Before(allocated(Handles(copy)));
        assert Handles(entry) !! Handles(copy);
      } else {
        // The entry is a node of the copy, which existed before any clone made here.
        assert old(allocated(Handles(copy)));
      }
      table := table[key := entry];
      pending := pending - {key};
    }
  }

  /**
   * Two table entries that reference the same reachable object (their values
   * may differ, e.g. in the parent one of them was registered with) become
   * one node of the clone.
   */
  lemma SharedEntriesStayShared(root: Node, copy: Node, m1: Node, m2: Node, e1: Node, e2: Node)
    requires m1.handle == m2.handle && Reachable(root, m1)
    requires ClonedEntry(root, copy, m1, e1) && ClonedEntry(root, copy, m2, e2)
    ensures e1 == e2
  {
  }

  /**
   * Where every object occurs once in the asset's tree, an entry for the node
   * at a non-empty path `p` becomes the node at `p` in the copy.
   */
  lemma ClonedEntryAtSamePath(root: Node, copy: Node, model: Node, entry: Node, p: Path)
    requires Unique(root) && p != [] && At(root, p).Some? && At(root, p).value.handle == model.handle
    requires ClonedEntry(root, copy, model, entry)
    ensures At(copy, p) == Some(entry)
  {
    PathToFinds(root, p);
  }

  /** The whole table of a clone, entry by entry: the remap of `ClonedEntryAtSamePath`. */
  lemma TableAtSamePath(root: Node, copy: Node, models: map<string, Node>, table: map<string, Node>)
    requires Unique(root) && models.Keys <= table.Keys
    requires forall k :: k in models ==> ClonedEntry(root, copy, models[k], table[k])
    ensures forall k, p :: k in models && p != [] && At(root, p).Some? && At(root, p).value.handle == models[k].handle ==>
      At(copy, p) == Some(table[k])
  {
    forall k, p | k in models && p != [] && At(root, p).Some? && At(root, p).value.handle == models[k].handle
      ensures At(copy, p) == Some(table[k])
    {
      ClonedEntryAtSamePath(root, copy, models[k], table[k], p);
    }
  }

  /** `m` is a well-formed node value: its subtree is a linked tree in which each object occurs once. */
  ghost predicate WellFormed(m: Node)
  {
    Unique(m) && Linked(m)
  }

  /**
   * Asset::addModel's adoption test as written: asked to add as a child, the
   * asset adopts a model that has no parent. A model inside the asset's tree
   * has its parent there, whatever the caller's copy of it says.
   */
  predicate AdoptsAsWritten(tree: Node, m: Node, addAsChild: bool)
  {
    addAsChild && m.parent.None? && m.handle !in Handles(tree)
  }

  /**
   * The adoption test with the cycle excluded: besides having no parent, the
   * model must share no object with the asset's tree, so it is neither inside
   * it nor one of its ancestors.
   */
  function Adopts(tree: Node, m: Node, addAsChild: bool): (b: bool)
    ensures b ==> AdoptsAsWritten(tree, m, addAsChild)
    ensures b ==> m.handle !in Handles(tree) && tree.handle !in Handles(m)
    ensures m.parent.None? && Handles(m) !! Handles(tree) ==> (b <==> addAsChild)
  {
    assert m.handle in Handles(m) && tree.handle in Handles(tree);
    addAsChild && m.parent.None? && Handles(m) !! Handles(tree)
  }

  /**
   * As written, an asset adopts an unparented model that is its own ancestor:
   * the asset's subtree then holds the asset itself, and is no longer a tree.
   * The corrected test refuses it.
   */
  lemma AdoptingAncestorBreaksTree(asset: Handle, model: Handle)
    requires asset.kind == AssetNode && model.kind == ModelNode
    ensures var tree := Node(asset, Some(model), 0, []);
      var m := Node(model, None, 0, [tree]);
      && WellFormed(tree) && WellFormed(m)
      && AdoptsAsWritten(tree, m, true)
      && !Unique(tree.(children := tree.children + [m.(parent := Some(asset))]))
      && !Adopts(tree, m, true)
  {
    var tree := Node(asset, Some(model), 0, []);
    var m := Node(model, None, 0, [tree]);
    var adopted := tree.(children := tree.children + [m.(parent := Some(asset))]);
    assert Handles(tree) == {asset};
    assert asset in Handles(m.children[0]);
    assert asset in Handles(adopted.children[0]);
  }

  class Asset {
    /** The scene-tree node this asset is: its own identity, parent, fields and the children it owns. */
    var node: Node
    /** The reference table `_mModels`. */
    var models: map<string, Node>
    var isAnimationStarted: bool
    var currentAnimationIdx: int
    var currentAnimationMs: real
    /** Whether a skeleton is attached. */
    var hasSkeleton: bool
    var allMaterials: seq<Material>

    /**
     * The asset is an Asset object whose subtree is a linked tree in which each
     * object occurs once, and every table entry is a Model (the table holds `Model*`).
     */
    ghost predicate Valid()
      reads this
    {
      && node.handle.kind == AssetNode
      && Unique(node) && Linked(node)
      && forall k :: k in models ==> models[k].handle.kind == ModelNode
    }

    /** A new asset: no parent, no children, an empty table, playback stopped, no skeleton and no materials. */
    constructor ()
      ensures Valid() && fresh(node.handle)
      ensures node.parent == None && node.children == [] && models == map[]
      ensures !isAnimationStarted && currentAnimationMs == 0.0 && !hasSkeleton && allMaterials == []
    {
      var h := new Handle(AssetNode);
      node := Node(h, None, 0, []);
      models := map[];
      isAnimationStarted := false;
      currentAnimationIdx := -1;
      currentAnimationMs := 0.0;
      hasSkeleton := false;
      allMaterials := [];
    }

    /**
     * Register `model` under `key`, overwriting any earlier entry; a null model
     * is refused with a warning. When `addAsChild` holds and the model has no
     * parent, the asset also takes ownership of it as its last child, unless
     * that would make the asset part of its own subtree (`Adopts`).
     */
    method AddModel(key: string, model: Option<Node>, addAsChild: bool)
      requires Valid()
      requires model.Some? ==> model.value.handle.kind == ModelNode && WellFormed(model.value)
      modifies this`models, this`node
      ensures Valid()
      ensures model.None? ==> models == old(models) && node == old(node)
      ensures model.Some? ==>
        var adopt := Adopts(old(node), model.value, addAsChild);
        var m := if adopt then model.value.(parent := Some(node.handle)) else model.value;
        && models == old(models)[key := m]
        && node == if adopt then old(node).(children := old(node.children) + [m]) else old(node)
    {
      if model.None? {
        // A null model is refused with a warning.
        return;
      }
      var m := model.value;
      if Adopts(node, m, addAsChild) {
        AdoptChild(node, m);
        m := m.(parent := Some(node.handle));
        models := models[key := m];
        node := node.(children := node.children + [m]);
      } else {
        models := models[key := m];
      }
    }

    /** The model registered under `key`, or null when there is none. */
    function GetModel(key: string): (r: Option<Node>)
      reads this
      ensures r.None? <==> key !in models
      ensures r.Some? ==> r.value == models[key]
    {
      if key in models then Some(models[key]) else None
    }

    /** A copy of the whole table, agreeing with GetModel on every key. */
    function AllModels(): (r: map<string, Node>)
      reads this
      ensures forall k :: (k in r <==> GetModel(k).Some?) && (k in r ==> GetModel(k) == Some(r[k]))
    {
      models
    }

    /** Drop the entry for `name`, if any; the child tree is left alone. */
    method RemoveModel(name: string)
      requires Valid()
      modifies this`models
      ensures Valid()
      ensures models.Keys == old(models.Keys) - {name}
      ensures forall k :: k in models ==> models[k] == old(models[k])
      ensures GetModel(name) == None
    {
      models := models - {name};
    }

    /**
     * Asset::clone: a new asset holding a structural copy of this one's subtree.
     * An entry that this asset can reach by a non-empty path is repointed at
     * the node at the same path in the copy; any other entry gets its own clone.
     */
    method Clone() returns (a: Asset)
      requires Valid()
      ensures fresh(a) && a.Valid()
      ensures a.node.parent == None && ShapeOf(a.node) == ShapeOf(node) && Linked(a.node)
      ensures fresh(Handles(a.node))
      ensures a.models.Keys == models.Keys
      ensures forall k :: k in models ==> ClonedEntry(node, a.node, models[k], a.models[k])
      ensures forall k, p :: k in models && p != [] && At(node, p).Some? && At(node, p).value.handle == models[k].handle ==>
        At(a.node, p) == Some(a.models[k])
      ensures forall k :: k in a.models ==> fresh(a.models[k].handle)
      ensures forall k :: k in models && !Reachable(node, models[k]) ==>
        fresh(Handles(a.models[k])) && Handles(a.models[k]) !! Handles(a.node)
      ensures forall k1, k2 :: k1 in models && k2 in models && k1 != k2 && !Reachable(node, models[k1]) ==>
        a.models[k1].handle != a.models[k2].handle
      ensures !a.isAnimationStarted && a.currentAnimationMs == 0.0 && !a.hasSkeleton && a.allMaterials == []
    {
      a := new Asset();
      var h := a.node.handle;
      assert fresh(h);
      label Copying:
      var copied := CopyTo(node, h, None);
      assert forall o :: o in Handles(copied) - {h} ==> !old@Copying(allocated(o));
      assert forall o :: o in Handles(copied) - {h} ==> fresh(o);
      assert Handles(copied) == (Handles(copied) - {h}) + {h};
      a.node := copied;
      var table := CloneTable(node, copied, models);
      a.models := table;
      TableAtSamePath(node, copied, models, table);
    }

    /** Advance the animation clock by `deltaT`, but only while playback is started. */
    method Update(deltaT: real)
      modifies this`currentAnimationMs
      ensures currentAnimationMs == Elapsed(isAnimationStarted, old(currentAnimationMs), [deltaT])
    {
      if isAnimationStarted {
        currentAnimationMs := currentAnimationMs + deltaT;
      }
      // Node::update(deltaT) visits the children; it does not touch the clock.
    }

    /**
     * Draw: pick one material per program, give each the chosen bone matrices
     * and switch bone transforms on (when a skeleton is attached), let the tree
     * draw, then switch bone transforms off on each chosen material. `seen` is
     * the bone-transform flag of each chosen material while the tree draws.
     */
    method Draw() returns (seen: map<ProgramId, bool>)
      modifies set m | m in allMaterials
      ensures seen.Keys == FirstPerProgram(allMaterials).Keys
      ensures forall i :: 0 <= i < |allMaterials| ==> allMaterials[i].program in seen
      ensures forall i :: 0 <= i < |allMaterials| && FirstUse(allMaterials, i) ==>
        && seen[allMaterials[i].program] == (hasSkeleton || old(allMaterials[i].useBoneTransform))
        && !allMaterials[i].useBoneTransform
        && allMaterials[i].boneMatrices ==
             (if hasSkeleton then Some(ChooseBones(isAnimationStarted, currentAnimationIdx, currentAnimationMs))
              else old(allMaterials[i].boneMatrices))
      ensures forall m :: m in allMaterials && m !in FirstPerProgram(allMaterials).Values ==> unchanged(m)
    {
      var unique := UniqueMaterials(allMaterials);
      FirstPerProgramIsFirst(allMaterials);
      if hasSkeleton {
        var bones := ChooseBones(isAnimationStarted, currentAnimationIdx, currentAnimationMs);
        SwitchBonesOn(unique, bones);
      }
      // Node::draw(PV): the tree draws with the flags as they are now.
      seen := map p | p in unique :: unique[p].useBoneTransform;
      SwitchBonesOff(unique);
    }
  }
}
