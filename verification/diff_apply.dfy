/**
 * The `Apply` actions of the diffs built by GameObjectDiff.cs, interpreted on
 * the prefab asset: destroying a component, adding a copy of an instance
 * component, assigning one property, and creating a new child object.
 */
module DiffApply {
  import opened Wrappers
  import opened SceneModel
  import opened EditorUtils
  import opened GameObjectDiff

  /** The prefab asset being edited: its objects, its root, and the next unused component id. */
  datatype Asset = Asset(nodes: seq<Node>, root: nat, nextId: ObjectId)

  /** Every component id in use lies below `nextId`. */
  ghost predicate IdsBelow(nodes: seq<Node>, next: ObjectId) {
    forall n, k | 0 <= n < |nodes| && 0 <= k < |nodes[n].components| :: nodes[n].components[k].id < next
  }

  ghost predicate ValidAsset(a: Asset) {
    WellFormed(a.nodes) && a.root < |a.nodes| && IdsBelow(a.nodes, a.nextId)
  }

  // ---------------------------------------------------------------------
  // Component and property edits

  /** `DestroyImmediate(component)`: the components other than the one with id `id`, in order. */
  function WithoutComponent(cs: seq<Component>, id: ObjectId): (r: seq<Component>)
    ensures |r| <= |cs|
    ensures forall k | 0 <= k < |r| :: r[k].id != id
    decreases |cs|
  {
    if |cs| == 0 then []
    else (if cs[0].id == id then [] else [cs[0]]) + WithoutComponent(cs[1..], id)
  }

  lemma {:induction false} WithoutComponentMember(cs: seq<Component>, id: ObjectId, c: Component)
    ensures c in WithoutComponent(cs, id) <==> c in cs && c.id != id
    decreases |cs|
  {
    if |cs| > 0 {
      WithoutComponentMember(cs[1..], id, c);
      assert cs == [cs[0]] + cs[1..];
    }
  }

  /** Sets the value of the first property with that path, as `FindProperty` then assignment does. */
  function SetFirst(props: seq<SerializedProperty>, path: string, v: Value): (r: seq<SerializedProperty>)
    ensures |r| == |props|
    ensures forall k | 0 <= k < |props| :: r[k].path == props[k].path && r[k].kind == props[k].kind && r[k].depth == props[k].depth
    decreases |props|
  {
    if |props| == 0 then []
    else if props[0].path == path then [props[0].(value := v)] + props[1..]
    else [props[0]] + SetFirst(props[1..], path, v)
  }

  /** Reading back: the property at `path` now holds `v`; every other path reads as before. */
  lemma {:induction false} SetFirstReadBack(props: seq<SerializedProperty>, path: string, v: Value, q: string)
    ensures q == path && FindProperty(props, path).Some? ==>
      FindProperty(SetFirst(props, path, v), q) == Some(FindProperty(props, path).value.(value := v))
    ensures q == path && FindProperty(props, path).None? ==> SetFirst(props, path, v) == props
    ensures q != path ==> FindProperty(SetFirst(props, path, v), q) == FindProperty(props, q)
    decreases |props|
  {
    if |props| > 0 && props[0].path != path {
      SetFirstReadBack(props[1..], path, v, q);
      assert SetFirst(props, path, v)[1..] == SetFirst(props[1..], path, v);
    }
  }

  /** The serialized edit of a property assignment on the components with id `id`. */
  function AssignIn(cs: seq<Component>, id: ObjectId, path: string, v: Value): (r: seq<Component>)
    ensures |r| == |cs|
    ensures forall k | 0 <= k < |cs| :: r[k].id == cs[k].id && r[k].ctype == cs[k].ctype
    ensures forall k | 0 <= k < |cs| && cs[k].id != id :: r[k] == cs[k]
    ensures forall k | 0 <= k < |cs| && cs[k].id == id :: r[k].props == SetFirst(cs[k].props, path, v)
  {
    seq(|cs|, k requires 0 <= k < |cs| => if cs[k].id == id then cs[k].(props := SetFirst(cs[k].props, path, v)) else cs[k])
  }

  /** Copies of `cs` with fresh ids `next`, `next + 1`, ..., as `AddComponent` plus `CopySerialized` makes. */
  function Reidentify(cs: seq<Component>, next: ObjectId): (r: seq<Component>)
    ensures |r| == |cs|
    ensures forall k | 0 <= k < |cs| :: r[k] == Component(next + k, cs[k].ctype, cs[k].props)
  {
    seq(|cs|, k requires 0 <= k < |cs| => Component(next + k, cs[k].ctype, cs[k].props))
  }

  function WithComponents(nodes: seq<Node>, n: nat, cs: seq<Component>): seq<Node>
    requires n < |nodes|
  {
    nodes[n := nodes[n].(components := cs)]
  }

  /** The new object named `name`, appended as the last child of `q`. */
  function Attach(a: Asset, q: nat, name: string, cs: seq<Component>): Asset
    requires q < |a.nodes|
  {
    var nodes := a.nodes[q := a.nodes[q].(children := a.nodes[q].children + [|a.nodes|])];
    Asset(nodes + [Node(name, Some(q), [], Reidentify(cs, a.nextId))], a.root, a.nextId + |cs|)
  }

  /** Where a new object goes: the object at the parent path of the instance's path. */
  function NewObjectParent(a: Asset, instancePath: Option<string>): Option<nat>
    requires ValidAsset(a)
  {
    match instancePath
    case None => None
    case Some(p) => GetChildByPath(a.nodes, a.root, Some(GetParentPath(p)))
  }

  /**
   * A diff's `Apply`. An edit addressed to an object or a parent that does
   * not exist changes nothing (in the source such an apply stops at a null
   * dereference before saving the prefab).
   */
  function Apply(a: Asset, e: Effect): (r: Asset)
    requires ValidAsset(a)
    ensures r.root == a.root && a.nextId <= r.nextId
    ensures |a.nodes| <= |r.nodes| <= |a.nodes| + 1
    ensures forall i | 0 <= i < |a.nodes| :: r.nodes[i].name == a.nodes[i].name && r.nodes[i].parent == a.nodes[i].parent
    ensures |r.nodes| == |a.nodes| + 1 ==>
      (e.CreateGameObject? && r.nodes[|a.nodes|].name == e.name && r.nodes[|a.nodes|].parent == NewObjectParent(a, e.instancePath))
  {
    match e
    case DestroyComponent(n, id) =>
      if n < |a.nodes| then a.(nodes := WithComponents(a.nodes, n, WithoutComponent(a.nodes[n].components, id))) else a
    case AddComponentCopy(n, src) =>
      if n < |a.nodes| then
        a.(nodes := WithComponents(a.nodes, n, a.nodes[n].components + [Component(a.nextId, src.ctype, src.props)]),
           nextId := a.nextId + 1)
      else a
    case AssignProperty(n, id, path, v) =>
      if n < |a.nodes| then a.(nodes := WithComponents(a.nodes, n, AssignIn(a.nodes[n].components, id, path, v))) else a
    case CreateGameObject(path, name, cs) =>
      match NewObjectParent(a, path)
      case None => a
      case Some(q) => Attach(a, q, name, cs)
  }

  // ---------------------------------------------------------------------
  // What every apply preserves

  /** Replacing the components of one object leaves the hierarchy as it was. */
  lemma WithComponentsKeepsHierarchy(nodes: seq<Node>, n: nat, cs: seq<Component>)
    requires n < |nodes| && WellFormed(nodes)
    ensures |WithComponents(nodes, n, cs)| == |nodes|
    ensures forall i | 0 <= i < |nodes| ::
      var m := WithComponents(nodes, n, cs)[i];
      m.name == nodes[i].name && m.parent == nodes[i].parent && m.children == nodes[i].children
    ensures WellFormed(WithComponents(nodes, n, cs))
  {
  }

  /** What `Attach` does to each object: the old ones keep everything except `q`, which gains the new child. */
  lemma AttachShape(a: Asset, q: nat, name: string, cs: seq<Component>)
    requires q < |a.nodes|
    ensures |Attach(a, q, name, cs).nodes| == |a.nodes| + 1
    ensures forall i | 0 <= i < |a.nodes| ::
      var m := Attach(a, q, name, cs).nodes[i];
      m.name == a.nodes[i].name && m.parent == a.nodes[i].parent && m.components == a.nodes[i].components
      && m.children == if i == q then a.nodes[i].children + [|a.nodes|] else a.nodes[i].children
    ensures Attach(a, q, name, cs).nodes[|a.nodes|] == Node(name, Some(q), [], Reidentify(cs, a.nextId))
  {
  }

  lemma AttachWellFormed(a: Asset, q: nat, name: string, cs: seq<Component>)
    requires WellFormed(a.nodes) && q < |a.nodes|
    ensures WellFormed(Attach(a, q, name, cs).nodes)
  {
    var s := a.nodes;
    var N := |s|;
    var s' := Attach(a, q, name, cs).nodes;
    AttachShape(a, q, name, cs);
    forall i | 0 <= i < |s'| && s'[i].parent.Some?
      ensures s'[i].parent.value < i && i in s'[s'[i].parent.value].children
    {
      if i < N {
        var p := s[i].parent.value;
        assert i in s[p].children;
      } else {
        assert s'[q].children[|s[q].children|] == N;
      }
    }
    forall i, j | 0 <= i < |s'| && 0 <= j < |s'[i].children|
      ensures i < s'[i].children[j] < |s'| && s'[s'[i].children[j]].parent == Some(i)
    {
      if i < N && j < |s[i].children| {
        assert s'[i].children[j] == s[i].children[j];
      }
    }
  }

  lemma AttachIds(a: Asset, q: nat, name: string, cs: seq<Component>)
    requires IdsBelow(a.nodes, a.nextId) && q < |a.nodes|
    ensures IdsBelow(Attach(a, q, name, cs).nodes, Attach(a, q, name, cs).nextId)
  {
    var s' := Attach(a, q, name, cs).nodes;
    AttachShape(a, q, name, cs);
    forall n, k | 0 <= n < |s'| && 0 <= k < |s'[n].components| ensures s'[n].components[k].id < a.nextId + |cs| {
      if n < |a.nodes| {
        assert s'[n].components[k] == a.nodes[n].components[k];
      }
    }
  }

  /** Attaching a new last child keeps the asset valid and the existing objects' names and parents. */
  lemma AttachKeepsAsset(a: Asset, q: nat, name: string, cs: seq<Component>)
    requires ValidAsset(a) && q < |a.nodes|
    ensures ValidAsset(Attach(a, q, name, cs))
    ensures |Attach(a, q, name, cs).nodes| == |a.nodes| + 1
    ensures forall i | 0 <= i < |a.nodes| ::
      Attach(a, q, name, cs).nodes[i].name == a.nodes[i].name && Attach(a, q, name, cs).nodes[i].parent == a.nodes[i].parent
  {
    AttachShape(a, q, name, cs);
    AttachWellFormed(a, q, name, cs);
    AttachIds(a, q, name, cs);
  }

  /**
   * Every apply keeps the asset valid and its root, never removes an object,
   * keeps the names and parents of the objects already there, and never
   * reuses a component id.
   */
  lemma ApplyKeepsAsset(a: Asset, e: Effect)
    requires ValidAsset(a)
    ensures ValidAsset(Apply(a, e))
    ensures Apply(a, e).root == a.root && a.nextId <= Apply(a, e).nextId
    ensures |a.nodes| <= |Apply(a, e).nodes|
    ensures forall i | 0 <= i < |a.nodes| ::
      Apply(a, e).nodes[i].name == a.nodes[i].name && Apply(a, e).nodes[i].parent == a.nodes[i].parent
  {
    match e
    case DestroyComponent(n, id) =>
      if n < |a.nodes| {
        var cs := WithoutComponent(a.nodes[n].components, id);
        WithComponentsKeepsHierarchy(a.nodes, n, cs);
        DestroyKeepsIds(a, n, id);
      }
    case AddComponentCopy(n, src) =>
      if n < |a.nodes| {
        WithComponentsKeepsHierarchy(a.nodes, n, a.nodes[n].components + [Component(a.nextId, src.ctype, src.props)]);
      }
    case AssignProperty(n, id, path, v) =>
      if n < |a.nodes| {
        WithComponentsKeepsHierarchy(a.nodes, n, AssignIn(a.nodes[n].components, id, path, v));
      }
    case CreateGameObject(path, name, cs) =>
      match NewObjectParent(a, path)
      case None =>
      case Some(q) => AttachKeepsAsset(a, q, name, cs);
  }

  /** No apply moves or renames an object that was already in the prefab: its path is unchanged. */
  lemma ApplyKeepsPaths(a: Asset, e: Effect, n: nat)
    requires ValidAsset(a) && n < |a.nodes|
    ensures ValidAsset(Apply(a, e))
    ensures GetPathForObjectInHierarchy(Apply(a, e).nodes, Some(n), a.root) == GetPathForObjectInHierarchy(a.nodes, Some(n), a.root)
  {
    ApplyKeepsAsset(a, e);
    PathFromFrame(a.nodes, Apply(a, e).nodes, n, a.root, "");
  }

  lemma DestroyKeepsIds(a: Asset, n: nat, id: ObjectId)
    requires IdsBelow(a.nodes, a.nextId) && n < |a.nodes|
    ensures IdsBelow(WithComponents(a.nodes, n, WithoutComponent(a.nodes[n].components, id)), a.nextId)
  {
    var cs := WithoutComponent(a.nodes[n].components, id);
    var s' := WithComponents(a.nodes, n, cs);
    forall i, k | 0 <= i < |s'| && 0 <= k < |s'[i].components| ensures s'[i].components[k].id < a.nextId {
      if i == n {
        WithoutComponentMember(a.nodes[n].components, id, cs[k]);
        var m :| 0 <= m < |a.nodes[n].components| && a.nodes[n].components[m] == cs[k];
      }
    }
  }

  // ---------------------------------------------------------------------
  // What each apply does

  /**
   * A Delete apply removes the component with that id from the object and
   * keeps its other components in order; other objects are untouched.
   */
  lemma DestroyRemovesComponent(a: Asset, n: nat, id: ObjectId)
    requires ValidAsset(a) && n < |a.nodes|
    ensures var a' := Apply(a, DestroyComponent(n, id));
      && (forall c :: c in a'.nodes[n].components <==> c in a.nodes[n].components && c.id != id)
      && (forall i | 0 <= i < |a.nodes| && i != n :: a'.nodes[i] == a.nodes[i])
  {
    forall c ensures c in WithoutComponent(a.nodes[n].components, id) <==> c in a.nodes[n].components && c.id != id {
      WithoutComponentMember(a.nodes[n].components, id, c);
    }
  }

  /**
   * An Add apply appends to the object a component of the instance
   * component's type with its serialized properties, under an id no
   * component of the asset had.
   */
  lemma AddAppendsFreshComponent(a: Asset, n: nat, src: Component)
    requires ValidAsset(a) && n < |a.nodes|
    ensures var a' := Apply(a, AddComponentCopy(n, src));
      && a'.nodes[n].components == a.nodes[n].components + [Component(a.nextId, src.ctype, src.props)]
      && (forall i, k | 0 <= i < |a.nodes| && 0 <= k < |a.nodes[i].components| :: a.nodes[i].components[k].id != a.nextId)
      && (forall i | 0 <= i < |a.nodes| && i != n :: a'.nodes[i] == a.nodes[i])
  {
  }

  /**
   * A Property apply writes the value into the first property with that
   * path of each component with that id, and leaves every other property and
   * component as it was.
   */
  lemma AssignReadBack(a: Asset, n: nat, id: ObjectId, path: string, v: Value, k: nat, q: string)
    requires ValidAsset(a) && n < |a.nodes| && k < |a.nodes[n].components|
    ensures var c := a.nodes[n].components[k];
      var c' := Apply(a, AssignProperty(n, id, path, v)).nodes[n].components[k];
      && c'.id == c.id && c'.ctype == c.ctype
      && (c.id != id ==> c' == c)
      && (c.id == id && q == path && FindProperty(c.props, path).Some? ==>
            FindProperty(c'.props, q) == Some(FindProperty(c.props, path).value.(value := v)))
      && (c.id == id && q != path ==> FindProperty(c'.props, q) == FindProperty(c.props, q))
  {
    SetFirstReadBack(a.nodes[n].components[k].props, path, v, q);
  }

  lemma {:induction false} SetFirstTwice(props: seq<SerializedProperty>, path: string, v: Value)
    ensures SetFirst(SetFirst(props, path, v), path, v) == SetFirst(props, path, v)
    decreases |props|
  {
    if |props| > 0 && props[0].path != path {
      SetFirstTwice(props[1..], path, v);
      assert SetFirst(props, path, v)[1..] == SetFirst(props[1..], path, v);
    }
  }

  /** Applying a Property diff twice is the same as applying it once. */
  lemma AssignIdempotent(a: Asset, n: nat, id: ObjectId, path: string, v: Value)
    requires ValidAsset(a)
    ensures ValidAsset(Apply(a, AssignProperty(n, id, path, v)))
    ensures Apply(Apply(a, AssignProperty(n, id, path, v)), AssignProperty(n, id, path, v)) == Apply(a, AssignProperty(n, id, path, v))
  {
    var e := AssignProperty(n, id, path, v);
    ApplyKeepsAsset(a, e);
    if n < |a.nodes| {
      var cs := a.nodes[n].components;
      var once := AssignIn(cs, id, path, v);
      forall k | 0 <= k < |cs| && cs[k].id == id {
        SetFirstTwice(cs[k].props, path, v);
      }
      assert AssignIn(once, id, path, v) == once;
    }
  }

  /**
   * Applying the Property diff of instance property `j` to the prefab
   * component it was computed against leaves that component holding the
   * compared property with the instance's value: comparing the two again
   * finds them equal, except for a component reference that the retarget
   * could only set to null.
   */
  lemma PropertyDiffTakesEffect(ctx: Context, a: Asset, pn: nat, k: nat, ic: Component, j: nat)
    requires ValidContext(ctx) && ReflexiveEqualities(ctx.eq) && NamesNonEmpty(ctx.prefab)
    requires ValidAsset(a) && pn < |a.nodes| && k < |a.nodes[pn].components|
    requires Emits(ctx, ic, a.nodes[pn].components[k], j)
    ensures var tc := a.nodes[pn].components[k];
      var d := PropertyDiff(ctx, pn, ic, tc, j);
      var tc' := Apply(a, d.effect).nodes[pn].components[k];
      var p := ic.props[j];
      && FindProperty(tc'.props, p.path).Some?
      && (CompareSerializedProperty(ctx, p, FindProperty(tc'.props, p.path).value).Same?
          || (p.kind == ObjectReference && RefOf(p.value).Some? && RefOf(p.value).value.ComponentRef?
              && FindProperty(tc'.props, p.path).value.value == RefVal(None)))
  {
    var tc := a.nodes[pn].components[k];
    var p := ic.props[j];
    var q := FindProperty(tc.props, p.path).value;
    var v := CompareSerializedProperty(ctx, p, q).assign;
    AssignReadBack(a, pn, tc.id, p.path, v, k, p.path);
    CompareAfterAssign(ctx, p, q);
  }

  // ---------------------------------------------------------------------
  // New objects

  /**
   * The New apply as GameObjectDiff.cs writes it: the new object's parent is
   * looked up at the instance's own path rather than at its parent path.
   */
  function ApplyNewAsWritten(a: Asset, instancePath: Option<string>, name: string, cs: seq<Component>): (r: Asset)
    requires ValidAsset(a)
    ensures r.root == a.root && |a.nodes| <= |r.nodes| <= |a.nodes| + 1
    ensures |r.nodes| == |a.nodes| ==> r == a
    ensures |r.nodes| == |a.nodes| + 1 ==>
      (r.nodes[|a.nodes|].name == name && r.nodes[|a.nodes|].parent == GetChildByPath(a.nodes, a.root, instancePath))
  {
    match GetChildByPath(a.nodes, a.root, instancePath)
    case None => a
    case Some(q) => Attach(a, q, name, cs)
  }

  /**
   * A New diff is only built for an object whose path does not resolve in
   * the prefab, so the lookup above fails: for a scene `R/C` whose prefab is
   * just `R`, the apply as written creates nothing, whereas looking up the
   * parent path creates `C` below `R`.
   */
  lemma NewAsWrittenCreatesNothing()
    ensures var a := Asset([Node("R", None, [], [])], 0, 0);
      && ValidAsset(a)
      && ApplyNewAsWritten(a, Some("C"), "C", []) == a
      && ValidAsset(Apply(a, CreateGameObject(Some("C"), "C", [])))
      && |Apply(a, CreateGameObject(Some("C"), "C", [])).nodes| == 2
      && GetPathForObjectInHierarchy(Apply(a, CreateGameObject(Some("C"), "C", [])).nodes, Some(1), 0) == Some("C")
  {
    var a := Asset([Node("R", None, [], [])], 0, 0);
    assert ValidAsset(a);
    assert SplitPath("C") == ["C"] by { assert LastIndexOf("C", '/') == -1; }
    assert FindNamed(a.nodes, [], "C").None?;
    assert GetParentPath("C") == "" by { assert LastIndexOf(TrimEnd("C", '/'), '/') == -1; }
    AttachKeepsAsset(a, 0, "C", []);
    var s' := Apply(a, CreateGameObject(Some("C"), "C", [])).nodes;
    assert PathFrom(s', 1, 0, "") == PathFrom(s', 0, 0, "C");
  }

  /**
   * With the parent path resolved in the prefab, the New apply adds one
   * object, with copies of the instance's components under fresh ids, whose
   * path below the prefab root is the parent path with its name appended.
   */
  lemma NewObjectLandsAtItsPath(a: Asset, p: string, name: string, cs: seq<Component>)
    requires ValidAsset(a) && NamesNonEmpty(a.nodes) && |name| > 0 && NewObjectParent(a, Some(p)).Some?
    ensures var a' := Apply(a, CreateGameObject(Some(p), name, cs));
      && ValidAsset(a')
      && |a'.nodes| == |a.nodes| + 1
      && a'.nodes[|a.nodes|].name == name
      && a'.nodes[|a.nodes|].components == Reidentify(cs, a.nextId)
      && GetPathForObjectInHierarchy(a'.nodes, Some(|a.nodes|), a.root) == Some(ChildPath(GetParentPath(p), name))
  {
    var pp := GetParentPath(p);
    var q := NewObjectParent(a, Some(p)).value;
    ResolvedPathRoundTrip(a.nodes, a.root, pp);
    PathDefinedIffAncestor(a.nodes, Some(q), a.root);
    var a' := Attach(a, q, name, cs);
    assert Apply(a, CreateGameObject(Some(p), name, cs)) == a';
    AttachKeepsAsset(a, q, name, cs);
    AttachShape(a, q, name, cs);
    var N := |a.nodes|;
    assert PathFrom(a'.nodes, N, a.root, "") == PathFrom(a'.nodes, q, a.root, name);
    PathFromFrame(a.nodes, a'.nodes, q, a.root, name);
    PathFromStep(a.nodes, q, a.root, name);
  }

  /**
   * Applying the New diff of a scene object below the instance root, whose
   * parent path resolves in the prefab, recreates it at the same path below
   * the prefab root (names non-empty and slash-free).
   */
  lemma NewDiffRecreatesInstancePath(ctx: Context, instance: nat, a: Asset)
    requires ValidContext(ctx) && NamesNonEmpty(ctx.scene) && NamesSlashFree(ctx.scene)
    requires instance < |ctx.scene| && instance != ctx.instanceRoot && IsAncestorOrSelf(ctx.scene, ctx.instanceRoot, instance)
    requires ValidAsset(a) && NamesNonEmpty(a.nodes)
    requires NewObjectParent(a, NewDiff(ctx, instance).effect.instancePath).Some?
    ensures ValidAsset(Apply(a, NewDiff(ctx, instance).effect))
    ensures |Apply(a, NewDiff(ctx, instance).effect).nodes| == |a.nodes| + 1
    ensures GetPathForObjectInHierarchy(Apply(a, NewDiff(ctx, instance).effect).nodes, Some(|a.nodes|), a.root)
         == NewDiff(ctx, instance).effect.instancePath
  {
    ChildOfParentPath(ctx.scene, instance, ctx.instanceRoot);
    var p := GetPathForObjectInHierarchy(ctx.scene, Some(instance), ctx.instanceRoot).value;
    NewObjectLandsAtItsPath(a, p, ctx.scene[instance].name, ctx.scene[instance].components);
  }

}
