/**
 * The diff engine (GameObjectDiff.cs): pairs the components of a scene
 * object with those of its prefab object, walks the serialized properties of
 * every pair, and reports Property, Delete, Add and New differences. Each
 * difference carries its apply action as data (`Effect`), interpreted by
 * `Apply` on the prefab asset.
 */
module GameObjectDiff {
  import opened Wrappers
  import opened SceneModel
  import opened EditorUtils
  import opened SeqFacts

  datatype Operation = Delete | Add | Property | New

  /** `Diff.Id`: the identity under which a diff's selection is remembered. */
  datatype DiffId = DiffId(operation: Operation, component: Option<ObjectId>, propertyPath: Option<string>)

  /** What a diff's `Apply` closure does to the prefab asset. */
  datatype Effect =
    | DestroyComponent(node: nat, component: ObjectId)
    | AddComponentCopy(node: nat, source: Component)
    | AssignProperty(node: nat, component: ObjectId, path: string, value: Value)
    | CreateGameObject(instancePath: Option<string>, name: string, components: seq<Component>)

  datatype Diff = Diff(id: DiffId, effect: Effect)

  /**
   * Unity's `==` on floats and on the float-based structs (approximate for
   * vectors, colors and quaternions) and `Keyframe.Equals`: inputs.
   */
  datatype Equalities = Equalities(
    floatEq: (real, real) -> bool,
    structEq: (PropertyKind, seq<real>, seq<real>) -> bool,
    keyEq: (Keyframe, Keyframe) -> bool)

  ghost predicate ReflexiveEqualities(eq: Equalities) {
    && (forall x :: eq.floatEq(x, x))
    && (forall k, v :: eq.structEq(k, v, v))
    && ReflexiveEq(eq.keyEq)
  }

  /**
   * What one `GetDiffs` call sees besides the two objects: the scene with the
   * instance root, and the prefab asset with the prefab root.
   */
  datatype Context = Context(eq: Equalities, scene: seq<Node>, instanceRoot: nat, prefab: seq<Node>, prefabRoot: nat)

  ghost predicate ValidContext(ctx: Context) {
    WellFormed(ctx.scene) && WellFormed(ctx.prefab) && ctx.instanceRoot < |ctx.scene| && ctx.prefabRoot < |ctx.prefab|
  }

  /** `propertyBlacklist`: Unity-internal properties that are never compared. */
  const PropertyBlacklist: set<string> := {
    "m_ObjectHideFlags", "m_PrefabParentObject", "m_PrefabInternal", "m_GameObject",
    "m_EditorHideFlags", "m_FileID", "m_PathID", "m_Children"
  }

  /** The outcome of comparing one property pair: equal, or the value `Apply` would assign. */
  datatype Comparison = Same | Differs(assign: Value)

  // ---------------------------------------------------------------------
  // Object references

  /** The path of an in-scene node below the instance root, if it lies below it. */
  function ScenePath(ctx: Context, n: nat): Option<string>
    requires ValidContext(ctx)
  {
    if n < |ctx.scene| then GetPathForObjectInHierarchy(ctx.scene, Some(n), ctx.instanceRoot) else None
  }

  /**
   * The path below the prefab root of the game object a prefab-side reference
   * names; null for anything outside the prefab hierarchy.
   */
  function PrefabPath(ctx: Context, g: Graph, n: nat): Option<string>
    requires ValidContext(ctx)
  {
    if g == PrefabGraph && n < |ctx.prefab| then GetPathForObjectInHierarchy(ctx.prefab, Some(n), ctx.prefabRoot) else None
  }

  /** `GetComponent(type)`: the first component of exactly that type. */
  function FirstOfType(cs: seq<Component>, t: TypeId): (r: Option<Component>)
    ensures r.None? <==> forall i | 0 <= i < |cs| :: cs[i].ctype != t
    ensures r.Some? ==> r.value in cs && r.value.ctype == t
    ensures r.Some? ==> exists j | 0 <= j < |cs| :: cs[j] == r.value && forall k | 0 <= k < j :: cs[k].ctype != t
    decreases |cs|
  {
    if |cs| == 0 then None
    else if cs[0].ctype == t then Some(cs[0])
    else FirstOfType(cs[1..], t)
  }

  /**
   * `CompareSerializedPropertyObjectReference`: a null or persistent reference
   * is compared by identity and copied as is; an in-scene reference is
   * compared by its path below the instance root, measured on the prefab side
   * below the prefab root, and retargeted to the node at that path.
   */
  function CompareObjectReference(ctx: Context, r1: Option<ObjRef>, r2: Option<ObjRef>): (r: Comparison)
    requires ValidContext(ctx)
    ensures (r1.None? || IsPersistent(r1.value)) ==> (r.Same? <==> r2 == r1) && (r.Differs? ==> r.assign == RefVal(r1))
    ensures r1.Some? && r1.value.OtherRef? ==> r.Same?
    ensures r1.Some? && !IsPersistent(r1.value) && (r1.value.GameObjectRef? || r1.value.ComponentRef?) ==>
      var p1 := ScenePath(ctx, r1.value.node);
      (p1.None? || GetChildByPath(ctx.prefab, ctx.prefabRoot, p1).None? ==> r.Same?)
    ensures r1.Some? && !IsPersistent(r1.value) && r1.value.GameObjectRef? ==>
      var p1 := ScenePath(ctx, r1.value.node);
      (p1.Some? && GetChildByPath(ctx.prefab, ctx.prefabRoot, p1).Some? ==>
        (r.Same? <==> r2.Some? && r2.value.GameObjectRef? && PrefabPath(ctx, r2.value.graph, r2.value.node) == p1))
    ensures r1.Some? && !IsPersistent(r1.value) && r1.value.ComponentRef? ==>
      var p1 := ScenePath(ctx, r1.value.node);
      (p1.Some? && GetChildByPath(ctx.prefab, ctx.prefabRoot, p1).Some? ==>
        (r.Same? <==> r2.Some? && r2.value.ComponentRef? && PrefabPath(ctx, r2.value.graph, r2.value.node) == p1))
  {
    if r1.None? || IsPersistent(r1.value) then
      if r2 == r1 then Same else Differs(RefVal(r1))
    else
      match r1.value
      case Foreign(_) => Same
      case OtherRef(_) => Same
      case GameObjectRef(_, n) =>
        (match ScenePath(ctx, n)
         case None => Same
         case Some(path1) =>
           match GetChildByPath(ctx.prefab, ctx.prefabRoot, Some(path1))
           case None => Same
           case Some(m) =>
             if r2.Some? && r2.value.GameObjectRef? && PrefabPath(ctx, r2.value.graph, r2.value.node) == Some(path1) then Same
             else Differs(RefVal(Some(GameObjectRef(PrefabGraph, m)))))
      case ComponentRef(_, n, t, _) =>
        match ScenePath(ctx, n)
        case None => Same
        case Some(path1) =>
          match GetChildByPath(ctx.prefab, ctx.prefabRoot, Some(path1))
          case None => Same
          case Some(m) =>
            var myComp := FirstOfType(ctx.prefab[m].components, t);
            var assign := RefVal(if myComp.Some? then Some(ComponentRef(PrefabGraph, m, t, myComp.value.id)) else None);
            if r2.Some? && r2.value.ComponentRef? && PrefabPath(ctx, r2.value.graph, r2.value.node) == Some(path1) then Same
            else Differs(assign)
  }

  /**
   * An in-scene reference is retargeted to the prefab node at the same path
   * below the prefab root as its target has below the instance root.
   */
  lemma RetargetKeepsPath(ctx: Context, r1: Option<ObjRef>, r2: Option<ObjRef>)
    requires ValidContext(ctx) && NamesNonEmpty(ctx.prefab)
    requires r1.Some? && !IsPersistent(r1.value) && (r1.value.GameObjectRef? || r1.value.ComponentRef?)
    requires CompareObjectReference(ctx, r1, r2).Differs?
    ensures var a := RefOf(CompareObjectReference(ctx, r1, r2).assign);
      a.Some? ==> ((a.value.GameObjectRef? || a.value.ComponentRef?) && a.value.graph == PrefabGraph
        && PrefabPath(ctx, a.value.graph, a.value.node) == ScenePath(ctx, r1.value.node))
    ensures r1.value.GameObjectRef? ==> RefOf(CompareObjectReference(ctx, r1, r2).assign).Some?
  {
    var p1 := ScenePath(ctx, r1.value.node);
    ResolvedPathRoundTrip(ctx.prefab, ctx.prefabRoot, p1.value);
  }

  // ---------------------------------------------------------------------
  // Property comparison

  /**
   * `CompareSerializedProperty`: compares by the instance property's type,
   * reading both sides through that type's accessor, and gives the value the
   * diff would assign.
   */
  function CompareSerializedProperty(ctx: Context, p1: SerializedProperty, p2: SerializedProperty): (r: Comparison)
    requires ValidContext(ctx)
    ensures p1.kind in {Generic, Unsupported} ==> r.Same?
    ensures p1.kind in {Integer, LayerMask, Character, ArraySize} ==>
      (r.Same? <==> IntOf(p1.value) == IntOf(p2.value)) && (r.Differs? ==> r.assign == IntVal(IntOf(p1.value)))
    ensures p1.kind == Boolean ==>
      (r.Same? <==> BoolOf(p1.value) == BoolOf(p2.value)) && (r.Differs? ==> r.assign == BoolVal(BoolOf(p1.value)))
    ensures p1.kind == String ==>
      (r.Same? <==> StringOf(p1.value) == StringOf(p2.value)) && (r.Differs? ==> r.assign == StringVal(StringOf(p1.value)))
    ensures p1.kind == Enum ==>
      (r.Same? <==> EnumOf(p1.value) == EnumOf(p2.value)) && (r.Differs? ==> r.assign == EnumVal(EnumOf(p1.value)))
    ensures p1.kind == Float ==>
      (r.Same? <==> ctx.eq.floatEq(FloatOf(p2.value), FloatOf(p1.value))) && (r.Differs? ==> r.assign == FloatVal(FloatOf(p1.value)))
    ensures p1.kind in {Color, Vector2, Vector3, Quaternion, Rect, Bounds} ==>
      (r.Same? <==> ctx.eq.structEq(p1.kind, StructOf(p2.value), StructOf(p1.value)))
      && (r.Differs? ==> r.assign == StructVal(StructOf(p1.value)))
    ensures p1.kind == Curve ==>
      (r.Same? <==> IsAnimationCurvesEqual(CurveOf(p2.value), CurveOf(p1.value), ctx.eq.keyEq))
      && (r.Differs? ==> r.assign == CurveVal(CurveOf(p1.value)))
    ensures p1.kind == ObjectReference ==> r == CompareObjectReference(ctx, RefOf(p1.value), RefOf(p2.value))
  {
    match p1.kind
    case Integer | LayerMask | Character | ArraySize =>
      if IntOf(p2.value) == IntOf(p1.value) then Same else Differs(IntVal(IntOf(p1.value)))
    case Boolean =>
      if BoolOf(p2.value) == BoolOf(p1.value) then Same else Differs(BoolVal(BoolOf(p1.value)))
    case Float =>
      if ctx.eq.floatEq(FloatOf(p2.value), FloatOf(p1.value)) then Same else Differs(FloatVal(FloatOf(p1.value)))
    case String =>
      if StringOf(p2.value) == StringOf(p1.value) then Same else Differs(StringVal(StringOf(p1.value)))
    case Color | Vector2 | Vector3 | Quaternion | Rect | Bounds =>
      if ctx.eq.structEq(p1.kind, StructOf(p2.value), StructOf(p1.value)) then Same else Differs(StructVal(StructOf(p1.value)))
    case Enum =>
      if EnumOf(p2.value) == EnumOf(p1.value) then Same else Differs(EnumVal(EnumOf(p1.value)))
    case Curve =>
      if IsAnimationCurvesEqual(CurveOf(p2.value), CurveOf(p1.value), ctx.eq.keyEq) then Same else Differs(CurveVal(CurveOf(p1.value)))
    case ObjectReference =>
      CompareObjectReference(ctx, RefOf(p1.value), RefOf(p2.value))
    case Generic => Same
    case Unsupported => Same
  }

  /** The property does not reference an object of the scene hierarchy. */
  predicate NoSceneReference(p: SerializedProperty) {
    p.kind == ObjectReference ==>
      var r := RefOf(p.value);
      r.None? || IsPersistent(r.value) || r.value.OtherRef?
  }

  /** No false positives: a property compared with itself is equal. */
  lemma CompareWithItself(ctx: Context, p: SerializedProperty)
    requires ValidContext(ctx) && ReflexiveEqualities(ctx.eq) && NoSceneReference(p)
    ensures CompareSerializedProperty(ctx, p, p).Same?
  {
    if p.kind == Curve {
      CurveEqualityReflexive(CurveOf(p.value), ctx.eq.keyEq);
    }
  }

  /**
   * After the prefab property takes the assigned value, comparing again finds
   * no difference, except for a component reference whose retarget found no
   * component of the referenced type (the assigned null never matches).
   */
  lemma CompareAfterAssign(ctx: Context, p1: SerializedProperty, p2: SerializedProperty)
    requires ValidContext(ctx) && ReflexiveEqualities(ctx.eq) && NamesNonEmpty(ctx.prefab)
    requires CompareSerializedProperty(ctx, p1, p2).Differs?
    ensures var v := CompareSerializedProperty(ctx, p1, p2).assign;
      CompareSerializedProperty(ctx, p1, p2.(value := v)).Same?
      || (p1.kind == ObjectReference && RefOf(p1.value).Some? && RefOf(p1.value).value.ComponentRef? && v == RefVal(None))
  {
    var v := CompareSerializedProperty(ctx, p1, p2).assign;
    if p1.kind == Curve {
      CurveEqualityReflexive(CurveOf(p1.value), ctx.eq.keyEq);
    } else if p1.kind == ObjectReference {
      var r1 := RefOf(p1.value);
      if r1.Some? && !IsPersistent(r1.value) && (r1.value.GameObjectRef? || r1.value.ComponentRef?) {
        RetargetKeepsPath(ctx, r1, RefOf(p2.value));
      }
    }
  }

  // ---------------------------------------------------------------------
  // The property walk

  /** `SerializedObject.FindProperty`: the first property with that path. */
  function FindProperty(props: seq<SerializedProperty>, path: string): (r: Option<SerializedProperty>)
    ensures r.None? <==> forall i | 0 <= i < |props| :: props[i].path != path
    ensures r.Some? ==> r.value in props && r.value.path == path
    decreases |props|
  {
    if |props| == 0 then None
    else if props[0].path == path then Some(props[0])
    else FindProperty(props[1..], path)
  }

  /** Where `Next(false)` goes from `i`: past every property nested inside it. */
  function SkipChildren(props: seq<SerializedProperty>, i: nat): (j: nat)
    requires i < |props|
    ensures i < j <= |props|
    ensures forall m | i < m < j :: props[m].depth > props[i].depth
    ensures j < |props| ==> props[j].depth <= props[i].depth
  {
    SkipFrom(props, props[i].depth, i + 1)
  }

  function SkipFrom(props: seq<SerializedProperty>, d: nat, j: nat): (k: nat)
    requires j <= |props|
    ensures j <= k <= |props|
    ensures forall m | j <= m < k :: props[m].depth > d
    ensures k < |props| ==> props[k].depth <= d
    decreases |props| - j
  {
    if j == |props| || props[j].depth <= d then j else SkipFrom(props, d, j + 1)
  }

  /** `SerializedProperty.Next(enterChildren)`. */
  function NextIndex(props: seq<SerializedProperty>, i: nat, enter: bool): nat
    requires i < |props|
  {
    if enter then i + 1 else SkipChildren(props, i)
  }

  /**
   * The `enterChildren` flag after visiting `p`: unchanged when the prefab
   * lacks the property, false when it is blacklisted, otherwise whether it is
   * a Generic (composite) property.
   */
  function EnterAfter(tprops: seq<SerializedProperty>, p: SerializedProperty, enter: bool): bool {
    match FindProperty(tprops, p.path)
    case None => enter
    case Some(_) => if p.path in PropertyBlacklist then false else p.kind == Generic
  }

  /** A visited property and the `enterChildren` value used to leave it. */
  datatype Step = Step(index: nat, enter: bool)

  /** The do-while loop of `FillDiffsFromComponent`, from index `i` with flag `enter`. */
  function Walk(iprops: seq<SerializedProperty>, tprops: seq<SerializedProperty>, i: nat, enter: bool): seq<Step>
    decreases |iprops| - i
  {
    if i >= |iprops| then []
    else
      var e := EnterAfter(tprops, iprops[i], enter);
      [Step(i, e)] + Walk(iprops, tprops, NextIndex(iprops, i, e), e)
  }

  /** The diffs one visited property yields (at most one). */
  function DiffAt(ctx: Context, node: nat, ic: Component, tc: Component, i: nat): seq<Diff>
    requires ValidContext(ctx) && i < |ic.props|
  {
    var p := ic.props[i];
    match FindProperty(tc.props, p.path)
    case None => []
    case Some(q) =>
      if p.path in PropertyBlacklist then []
      else
        match CompareSerializedProperty(ctx, p, q)
        case Same => []
        case Differs(v) => [Diff(DiffId(Property, Some(ic.id), Some(p.path)), AssignProperty(node, tc.id, p.path, v))]
  }

  function DiffsAtSteps(ctx: Context, node: nat, ic: Component, tc: Component, steps: seq<Step>): seq<Diff>
    requires ValidContext(ctx) && forall k | 0 <= k < |steps| :: steps[k].index < |ic.props|
    decreases |steps|
  {
    if |steps| == 0 then []
    else DiffAt(ctx, node, ic, tc, steps[0].index) + DiffsAtSteps(ctx, node, ic, tc, steps[1..])
  }

  /** Every step of a walk from `i` visits an index in `[i, |iprops|)`, in increasing order. */
  lemma {:induction false} WalkIndices(iprops: seq<SerializedProperty>, tprops: seq<SerializedProperty>, i: nat, enter: bool)
    ensures forall k | 0 <= k < |Walk(iprops, tprops, i, enter)| :: i <= Walk(iprops, tprops, i, enter)[k].index < |iprops|
    ensures forall k, m | 0 <= k < m < |Walk(iprops, tprops, i, enter)| ::
      Walk(iprops, tprops, i, enter)[k].index < Walk(iprops, tprops, i, enter)[m].index
    decreases |iprops| - i
  {
    if i < |iprops| {
      var e := EnterAfter(tprops, iprops[i], enter);
      var j := NextIndex(iprops, i, e);
      WalkIndices(iprops, tprops, j, e);
      var rest := Walk(iprops, tprops, j, e);
      var w := [Step(i, e)] + rest;
      assert Walk(iprops, tprops, i, enter) == w;
      assert forall k | 0 < k < |w| :: w[k] == rest[k - 1];
    }
  }

  /**
   * `FillDiffsFromComponent`: the Property diffs of one component pair, in
   * iteration order; `node` is the prefab object the prefab component is on.
   */
  function FillDiffsFromComponent(ctx: Context, node: nat, ic: Component, tc: Component): (r: seq<Diff>)
    requires ValidContext(ctx)
    ensures forall d | d in r ::
      (d.id.operation == Property && d.id.component == Some(ic.id)
       && d.effect.AssignProperty? && d.effect.node == node && d.effect.component == tc.id
       && d.id.propertyPath == Some(d.effect.path) && d.effect.path !in PropertyBlacklist)
  {
    var w := Visits(ic.props, tc.props);
    DiffsAtStepsShape(ctx, node, ic, tc, w);
    DiffsAtSteps(ctx, node, ic, tc, w)
  }

  lemma {:induction false} DiffsAtStepsShape(ctx: Context, node: nat, ic: Component, tc: Component, steps: seq<Step>)
    requires ValidContext(ctx) && forall k | 0 <= k < |steps| :: steps[k].index < |ic.props|
    ensures forall d | d in DiffsAtSteps(ctx, node, ic, tc, steps) ::
      (d.id.operation == Property && d.id.component == Some(ic.id)
       && d.effect.AssignProperty? && d.effect.node == node && d.effect.component == tc.id
       && d.id.propertyPath == Some(d.effect.path) && d.effect.path !in PropertyBlacklist)
    decreases |steps|
  {
    if |steps| > 0 {
      DiffsAtStepsShape(ctx, node, ic, tc, steps[1..]);
    }
  }

  /** The steps of the walk over a whole component, starting at its first property. */
  function Visits(iprops: seq<SerializedProperty>, tprops: seq<SerializedProperty>): (w: seq<Step>)
    ensures forall k | 0 <= k < |w| :: w[k].index < |iprops|
    ensures forall k, m | 0 <= k < m < |w| :: w[k].index < w[m].index
  {
    WalkIndices(iprops, tprops, 0, true);
    Walk(iprops, tprops, 0, true)
  }

  /**
   * How `enterChildren` flows from one visited property to the next. The
   * walk starts at the first property with the flag `true`, and each step
   * calls `Next` with the flag the previous step left. A property the prefab
   * lacks leaves that flag as it was, because `continue` skips the
   * assignment. A blacklisted one clears it. Any other property sets it to
   * whether the property is Generic.
   */
  lemma EnterChildrenFlow(iprops: seq<SerializedProperty>, tprops: seq<SerializedProperty>, k: nat)
    requires k + 1 < |Visits(iprops, tprops)|
    ensures Visits(iprops, tprops)[0].index == 0
    ensures FindProperty(tprops, iprops[0].path).None? ==> Visits(iprops, tprops)[0].enter
    ensures var w := Visits(iprops, tprops);
      var p := iprops[w[k + 1].index];
      && w[k + 1].index == NextIndex(iprops, w[k].index, w[k].enter)
      && (FindProperty(tprops, p.path).None? ==> w[k + 1].enter == w[k].enter)
      && (FindProperty(tprops, p.path).Some? && p.path in PropertyBlacklist ==> !w[k + 1].enter)
      && (FindProperty(tprops, p.path).Some? && p.path !in PropertyBlacklist ==> (w[k + 1].enter <==> p.kind == Generic))
  {
    var w := Visits(iprops, tprops);
    WalkSuffix(iprops, tprops, 0, true, k);
    var j := NextIndex(iprops, w[k].index, w[k].enter);
    var rest := Walk(iprops, tprops, j, w[k].enter);
    assert w[k + 1] == rest[0];
  }

  /**
   * Step `k` of a walk records the flag `EnterAfter` computes for its
   * property, and the steps after it are the walk restarted where it leads.
   */
  lemma {:induction false} WalkSuffix(iprops: seq<SerializedProperty>, tprops: seq<SerializedProperty>, i: nat, enter: bool, k: nat)
    requires k < |Walk(iprops, tprops, i, enter)|
    ensures Walk(iprops, tprops, i, enter)[k].index < |iprops|
    ensures exists e :: Walk(iprops, tprops, i, enter)[k].enter == EnterAfter(tprops, iprops[Walk(iprops, tprops, i, enter)[k].index], e)
    ensures Walk(iprops, tprops, i, enter)[k + 1..] ==
      Walk(iprops, tprops, NextIndex(iprops, Walk(iprops, tprops, i, enter)[k].index, Walk(iprops, tprops, i, enter)[k].enter),
           Walk(iprops, tprops, i, enter)[k].enter)
    decreases |iprops| - i
  {
    var w := Walk(iprops, tprops, i, enter);
    var e := EnterAfter(tprops, iprops[i], enter);
    var j := NextIndex(iprops, i, e);
    var rest := Walk(iprops, tprops, j, e);
    assert w == [Step(i, e)] + rest;
    ConsSuffix(Step(i, e), rest, k);
    if k > 0 {
      WalkSuffix(iprops, tprops, j, e, k - 1);
    }
  }


  /**
   * Blacklist and non-Generic properties found in the prefab are not
   * descended into: no later step visits a property nested inside them.
   */
  lemma ClosedPropertiesNotDescended(iprops: seq<SerializedProperty>, tprops: seq<SerializedProperty>, i: nat, enter: bool, k: nat)
    requires k < |Walk(iprops, tprops, i, enter)|
    requires var x := Walk(iprops, tprops, i, enter)[k].index;
      x < |iprops| && FindProperty(tprops, iprops[x].path).Some? && (iprops[x].path in PropertyBlacklist || iprops[x].kind != Generic)
    ensures forall m | k < m < |Walk(iprops, tprops, i, enter)| ::
      Walk(iprops, tprops, i, enter)[m].index >= SkipChildren(iprops, Walk(iprops, tprops, i, enter)[k].index)
  {
    var w := Walk(iprops, tprops, i, enter);
    WalkSuffix(iprops, tprops, i, enter, k);
    var x := w[k].index;
    var e :| w[k].enter == EnterAfter(tprops, iprops[x], e);
    assert !w[k].enter;
    var rest := Walk(iprops, tprops, SkipChildren(iprops, x), false);
    assert w[k + 1..] == rest;
    WalkIndices(iprops, tprops, SkipChildren(iprops, x), false);
    forall m | k < m < |w| ensures w[m].index >= SkipChildren(iprops, x) {
      assert w[m] == rest[m - k - 1];
    }
  }

  /** A Generic property found in the prefab and not blacklisted is descended into. */
  lemma {:induction false} GenericPropertiesDescended(iprops: seq<SerializedProperty>, tprops: seq<SerializedProperty>, i: nat, enter: bool, k: nat)
    requires k < |Walk(iprops, tprops, i, enter)|
    requires var x := Walk(iprops, tprops, i, enter)[k].index;
      x + 1 < |iprops| && FindProperty(tprops, iprops[x].path).Some? && iprops[x].path !in PropertyBlacklist && iprops[x].kind == Generic
    ensures k + 1 < |Walk(iprops, tprops, i, enter)|
    ensures Walk(iprops, tprops, i, enter)[k + 1].index == Walk(iprops, tprops, i, enter)[k].index + 1
    decreases |iprops| - i
  {
    var e := EnterAfter(tprops, iprops[i], enter);
    var rest := Walk(iprops, tprops, NextIndex(iprops, i, e), e);
    assert Walk(iprops, tprops, i, enter) == [Step(i, e)] + rest;
    if k == 0 {
      assert e;
      assert |rest| > 0 && rest[0].index == i + 1;
    } else {
      ConsSuffix(Step(i, e), rest, k - 1);
      ConsSuffix(Step(i, e), rest, k);
      GenericPropertiesDescended(iprops, tprops, NextIndex(iprops, i, e), e, k - 1);
    }
  }



  /** Every top-level (depth 0) property at or after the start is visited. */
  lemma {:induction false} TopLevelPropertiesVisited(iprops: seq<SerializedProperty>, tprops: seq<SerializedProperty>, i: nat, enter: bool, j: nat)
    requires i <= j < |iprops| && iprops[j].depth == 0
    ensures exists k :: 0 <= k < |Walk(iprops, tprops, i, enter)| && Walk(iprops, tprops, i, enter)[k].index == j
    decreases |iprops| - i
  {
    var e := EnterAfter(tprops, iprops[i], enter);
    var n := NextIndex(iprops, i, e);
    var w := Walk(iprops, tprops, i, enter);
    var rest := Walk(iprops, tprops, n, e);
    assert w == [Step(i, e)] + rest;
    if j == i {
      assert w[0].index == j;
    } else {
      assert n <= j;
      TopLevelPropertiesVisited(iprops, tprops, n, e, j);
      var k :| 0 <= k < |rest| && rest[k].index == j;
      assert w[k + 1] == rest[k];
    }
  }

  /** Visiting property `j` produces a diff: found in the prefab, not blacklisted, and different. */
  ghost predicate Emits(ctx: Context, ic: Component, tc: Component, j: nat)
    requires ValidContext(ctx)
  {
    && j < |ic.props|
    && FindProperty(tc.props, ic.props[j].path).Some?
    && ic.props[j].path !in PropertyBlacklist
    && CompareSerializedProperty(ctx, ic.props[j], FindProperty(tc.props, ic.props[j].path).value).Differs?
  }

  /** The Property diff for instance property `j`, assigning into prefab component `tc` on `node`. */
  function PropertyDiff(ctx: Context, node: nat, ic: Component, tc: Component, j: nat): Diff
    requires ValidContext(ctx) && Emits(ctx, ic, tc, j)
  {
    var p := ic.props[j];
    Diff(DiffId(Property, Some(ic.id), Some(p.path)),
         AssignProperty(node, tc.id, p.path, CompareSerializedProperty(ctx, p, FindProperty(tc.props, p.path).value).assign))
  }

  /** Visiting one property yields its Property diff exactly when it emits one. */
  lemma DiffAtEmits(ctx: Context, node: nat, ic: Component, tc: Component, j: nat)
    requires ValidContext(ctx) && j < |ic.props|
    ensures DiffAt(ctx, node, ic, tc, j) == if Emits(ctx, ic, tc, j) then [PropertyDiff(ctx, node, ic, tc, j)] else []
  {
  }

  lemma {:induction false} DiffsAtStepsMembers(ctx: Context, node: nat, ic: Component, tc: Component, steps: seq<Step>)
    requires ValidContext(ctx) && forall k | 0 <= k < |steps| :: steps[k].index < |ic.props|
    ensures forall d :: d in DiffsAtSteps(ctx, node, ic, tc, steps) <==>
      exists k :: 0 <= k < |steps| && d in DiffAt(ctx, node, ic, tc, steps[k].index)
    decreases |steps|
  {
    if |steps| > 0 {
      var tail := steps[1..];
      DiffsAtStepsMembers(ctx, node, ic, tc, tail);
      var here := DiffAt(ctx, node, ic, tc, steps[0].index);
      var rest := DiffsAtSteps(ctx, node, ic, tc, tail);
      assert DiffsAtSteps(ctx, node, ic, tc, steps) == here + rest;
      forall d ensures d in here + rest <==> exists k :: 0 <= k < |steps| && d in DiffAt(ctx, node, ic, tc, steps[k].index) {
        if d in here + rest {
          var k := 0;
          if d !in here {
            var m :| 0 <= m < |tail| && d in DiffAt(ctx, node, ic, tc, tail[m].index);
            assert tail[m] == steps[m + 1];
            k := m + 1;
          }
          assert 0 <= k < |steps| && d in DiffAt(ctx, node, ic, tc, steps[k].index);
        }
        if exists k :: 0 <= k < |steps| && d in DiffAt(ctx, node, ic, tc, steps[k].index) {
          var k :| 0 <= k < |steps| && d in DiffAt(ctx, node, ic, tc, steps[k].index);
          if k > 0 {
            assert tail[k - 1] == steps[k];
            assert d in rest;
          } else {
            assert d in here;
          }
        }
      }
    }
  }

  /**
   * The diffs of a component pair are exactly the Property diffs of the
   * visited properties that are found in the prefab, not blacklisted, and
   * differ; each names the instance component and the property path, and
   * none names a blacklisted path.
   */
  lemma FillDiffsCharacterised(ctx: Context, node: nat, ic: Component, tc: Component)
    requires ValidContext(ctx)
    ensures forall d :: d in FillDiffsFromComponent(ctx, node, ic, tc) <==>
      exists k :: 0 <= k < |Visits(ic.props, tc.props)| && Emits(ctx, ic, tc, Visits(ic.props, tc.props)[k].index)
        && d == PropertyDiff(ctx, node, ic, tc, Visits(ic.props, tc.props)[k].index)
    ensures forall d | d in FillDiffsFromComponent(ctx, node, ic, tc) ::
      d.id.operation == Property && d.id.component == Some(ic.id) && d.id.propertyPath.Some?
      && d.id.propertyPath.value !in PropertyBlacklist
  {
    var w := Visits(ic.props, tc.props);
    DiffsAtStepsMembers(ctx, node, ic, tc, w);
    forall k | 0 <= k < |w| {
      DiffAtEmits(ctx, node, ic, tc, w[k].index);
    }
  }

  /** No two properties share a path. */
  ghost predicate UniquePaths(props: seq<SerializedProperty>) {
    forall a, b | 0 <= a < b < |props| :: props[a].path != props[b].path
  }

  lemma FindOwnProperty(props: seq<SerializedProperty>, j: nat)
    requires UniquePaths(props) && j < |props|
    ensures FindProperty(props, props[j].path) == Some(props[j])
  {
    var r := FindProperty(props, props[j].path).value;
    var a :| 0 <= a < |props| && props[a] == r;
    if a < j { assert props[a].path != props[j].path; }
    if j < a { assert props[j].path != props[a].path; }
  }

  lemma {:induction false} NoDiffsAgainstItself(ctx: Context, node: nat, c: Component, steps: seq<Step>)
    requires ValidContext(ctx) && ReflexiveEqualities(ctx.eq) && UniquePaths(c.props)
    requires forall j | 0 <= j < |c.props| :: NoSceneReference(c.props[j])
    requires forall k | 0 <= k < |steps| :: steps[k].index < |c.props|
    ensures DiffsAtSteps(ctx, node, c, c, steps) == []
    decreases |steps|
  {
    if |steps| > 0 {
      var j := steps[0].index;
      FindOwnProperty(c.props, j);
      CompareWithItself(ctx, c.props[j]);
      NoDiffsAgainstItself(ctx, node, c, steps[1..]);
    }
  }

  /** No false positives: a component compared with an identical one yields no diff. */
  lemma FillDiffsAgainstItself(ctx: Context, node: nat, c: Component)
    requires ValidContext(ctx) && ReflexiveEqualities(ctx.eq) && UniquePaths(c.props)
    requires forall j | 0 <= j < |c.props| :: NoSceneReference(c.props[j])
    ensures FillDiffsFromComponent(ctx, node, c, c) == []
  {
    NoDiffsAgainstItself(ctx, node, c, Visits(c.props, c.props));
  }

  // ---------------------------------------------------------------------
  // Pairing components

  /** No component of `cs` has type `t`. */
  predicate TypeAbsent(cs: seq<Component>, t: TypeId) {
    forall i | 0 <= i < |cs| :: cs[i].ctype != t
  }

  /** `GetComponents(type)`: the components of exactly that type, in order. */
  function OfType(cs: seq<Component>, t: TypeId): (r: seq<Component>)
    ensures |r| <= |cs|
    ensures forall k | 0 <= k < |r| :: r[k].ctype == t
    decreases |cs|
  {
    if |cs| == 0 then []
    else (if cs[0].ctype == t then [cs[0]] else []) + OfType(cs[1..], t)
  }

  lemma {:induction false} OfTypeMember(cs: seq<Component>, t: TypeId, c: Component)
    ensures c in OfType(cs, t) <==> c in cs && c.ctype == t
    decreases |cs|
  {
    if |cs| > 0 {
      OfTypeMember(cs[1..], t, c);
      assert cs == [cs[0]] + cs[1..];
    }
  }

  lemma {:induction false} OfTypeEmpty(cs: seq<Component>, t: TypeId)
    ensures |OfType(cs, t)| == 0 <==> TypeAbsent(cs, t)
    decreases |cs|
  {
    if |cs| > 0 {
      OfTypeEmpty(cs[1..], t);
      assert forall k | 1 <= k < |cs| :: cs[k] == cs[1..][k - 1];
    }
  }

  /** `Array.IndexOf`: the first position of `c` in `cs`, or -1. */
  function IndexOf(cs: seq<Component>, c: Component): (r: int)
    ensures -1 <= r < |cs|
    ensures r == -1 <==> c !in cs
    ensures r >= 0 ==> cs[r] == c && forall m | 0 <= m < r :: cs[m] != c
    decreases |cs|
  {
    if |cs| == 0 then -1
    else if cs[0] == c then 0
    else
      var k := IndexOf(cs[1..], c);
      if k == -1 then -1 else k + 1
  }

  /**
   * The instance component paired with prefab component `tcs[i]`: none when
   * the instance has no component of its type; otherwise, counting the
   * components of that type on each side in order, the prefab component's
   * position taken modulo the instance's count.
   */
  function PairedComponent(tcs: seq<Component>, ics: seq<Component>, i: nat): (r: Option<Component>)
    requires i < |tcs|
    ensures r.None? <==> TypeAbsent(ics, tcs[i].ctype)
    ensures r.Some? ==> r.value in ics && r.value.ctype == tcs[i].ctype
  {
    var t := tcs[i].ctype;
    var of := OfType(ics, t);
    OfTypeEmpty(ics, t);
    if |of| == 0 then None
    else
      // `tcs[i]` is among the prefab components of its own type, so `idx` is
      // not -1 and C#'s truncating `%` agrees with Dafny's.
      var idx := IndexOf(OfType(tcs, t), tcs[i]);
      var c := if |of| > 1 then of[idx % |of|] else of[0];
      OfTypeMember(ics, t, c);
      Some(c)
  }

  /**
   * Pairing by order: the `j`-th prefab component of a type is paired with
   * the `j`-th instance component of that type, counting cyclically when the
   * instance has fewer of them.
   */
  lemma PairingByOrder(tcs: seq<Component>, ics: seq<Component>, i: nat, j: nat)
    requires i < |tcs| && !TypeAbsent(ics, tcs[i].ctype)
    requires j < |OfType(tcs, tcs[i].ctype)| && OfType(tcs, tcs[i].ctype)[j] == tcs[i]
    requires forall m | 0 <= m < j :: OfType(tcs, tcs[i].ctype)[m] != tcs[i]
    ensures |OfType(ics, tcs[i].ctype)| > 0
    ensures PairedComponent(tcs, ics, i) == Some(OfType(ics, tcs[i].ctype)[j % |OfType(ics, tcs[i].ctype)|])
  {
    var t := tcs[i].ctype;
    OfTypeEmpty(ics, t);
    var idx := IndexOf(OfType(tcs, t), tcs[i]);
    assert idx == j;
  }

  /** Two prefab components of one type and a single instance one: both are paired with it. */
  lemma PairingWrapsAround()
    ensures var a1 := Component(1, "A", []);
      var a2 := Component(2, "A", []);
      var a3 := Component(3, "A", []);
      PairedComponent([a1, a2], [a3], 0) == Some(a3) && PairedComponent([a1, a2], [a3], 1) == Some(a3)
  {
    var a3 := Component(3, "A", []);
    assert OfType([a3], "A") == [a3];
  }

  /** Identical component lists pair every component with itself. */
  lemma PairedWithItself(cs: seq<Component>, i: nat)
    requires i < |cs|
    ensures PairedComponent(cs, cs, i) == Some(cs[i])
  {
    var t := cs[i].ctype;
    var of := OfType(cs, t);
    OfTypeMember(cs, t, cs[i]);
    var idx := IndexOf(of, cs[i]);
    assert !TypeAbsent(cs, t) by { assert cs[i].ctype == t; }
    PairingByOrder(cs, cs, i, idx);
    ModOfSmaller(idx, |of|);
  }

  lemma ModOfSmaller(a: nat, n: nat)
    requires a < n
    ensures a % n == a
  {
  }

  // ---------------------------------------------------------------------
  // GetDiffs

  /** The Property diffs of prefab component `tcs[j]` and its paired instance component, if any. */
  function PairDiffs(ctx: Context, node: nat, tcs: seq<Component>, ics: seq<Component>, j: nat): seq<Diff>
    requires ValidContext(ctx) && j < |tcs|
  {
    match PairedComponent(tcs, ics, j)
    case None => []
    case Some(ic) => FillDiffsFromComponent(ctx, node, ic, tcs[j])
  }

  /** The first loop of `GetDiffs`: Property diffs of the paired components `tcs[i..]`, on prefab object `node`. */
  function PropertyDiffsFrom(ctx: Context, node: nat, tcs: seq<Component>, ics: seq<Component>, i: nat): seq<Diff>
    requires ValidContext(ctx) && i <= |tcs|
    decreases |tcs| - i
  {
    if i == |tcs| then []
    else PairDiffs(ctx, node, tcs, ics, i) + PropertyDiffsFrom(ctx, node, tcs, ics, i + 1)
  }

  /** The `deletedComponents` list the first loop collects from `tcs[i..]`. */
  function DeletedFrom(tcs: seq<Component>, ics: seq<Component>, i: nat): seq<Component>
    requires i <= |tcs|
    decreases |tcs| - i
  {
    if i == |tcs| then []
    else (if PairedComponent(tcs, ics, i).None? then [tcs[i]] else []) + DeletedFrom(tcs, ics, i + 1)
  }

  /** The instance components the third loop reports: those whose type `Array.Find` does not find on the prefab. */
  function AddedFrom(ics: seq<Component>, tcs: seq<Component>): seq<Component>
    decreases |ics|
  {
    if |ics| == 0 then []
    else (if FirstOfType(tcs, ics[0].ctype).None? then [ics[0]] else []) + AddedFrom(ics[1..], tcs)
  }

  /** Reference definition: the components of `cs` whose type `others` lacks, in order. */
  function WithoutTypeOf(cs: seq<Component>, others: seq<Component>): (r: seq<Component>)
    ensures |r| <= |cs|
    decreases |cs|
  {
    if |cs| == 0 then []
    else (if TypeAbsent(others, cs[0].ctype) then [cs[0]] else []) + WithoutTypeOf(cs[1..], others)
  }

  lemma {:induction false} WithoutTypeOfMember(cs: seq<Component>, others: seq<Component>, c: Component)
    ensures c in WithoutTypeOf(cs, others) <==> c in cs && TypeAbsent(others, c.ctype)
    decreases |cs|
  {
    if |cs| > 0 {
      WithoutTypeOfMember(cs[1..], others, c);
      assert cs == [cs[0]] + cs[1..];
    }
  }

  lemma {:induction false} DeletedAreUnpaired(tcs: seq<Component>, ics: seq<Component>, i: nat)
    requires i <= |tcs|
    ensures DeletedFrom(tcs, ics, i) == WithoutTypeOf(tcs[i..], ics)
    decreases |tcs| - i
  {
    if i < |tcs| {
      DeletedAreUnpaired(tcs, ics, i + 1);
      assert tcs[i..][1..] == tcs[i + 1..];
    }
  }

  lemma {:induction false} AddedAreUnmatched(ics: seq<Component>, tcs: seq<Component>)
    ensures AddedFrom(ics, tcs) == WithoutTypeOf(ics, tcs)
    decreases |ics|
  {
    if |ics| > 0 {
      AddedAreUnmatched(ics[1..], tcs);
    }
  }

  function DeleteDiff(node: nat, c: Component): Diff {
    Diff(DiffId(Delete, Some(c.id), None), DestroyComponent(node, c.id))
  }

  function AddDiff(node: nat, c: Component): Diff {
    Diff(DiffId(Add, Some(c.id), None), AddComponentCopy(node, c))
  }

  function DeleteDiffs(node: nat, cs: seq<Component>): (r: seq<Diff>)
    ensures |r| == |cs| && forall k | 0 <= k < |cs| :: r[k] == DeleteDiff(node, cs[k])
  {
    seq(|cs|, k requires 0 <= k < |cs| => DeleteDiff(node, cs[k]))
  }

  function AddDiffs(node: nat, cs: seq<Component>): (r: seq<Diff>)
    ensures |r| == |cs| && forall k | 0 <= k < |cs| :: r[k] == AddDiff(node, cs[k])
  {
    seq(|cs|, k requires 0 <= k < |cs| => AddDiff(node, cs[k]))
  }

  /** The New diff for a scene object the prefab lacks. */
  function NewDiff(ctx: Context, instance: nat): Diff
    requires ValidContext(ctx) && instance < |ctx.scene|
  {
    var o := ctx.scene[instance];
    Diff(DiffId(New, None, Some(o.name)),
         CreateGameObject(GetPathForObjectInHierarchy(ctx.scene, Some(instance), ctx.instanceRoot), o.name, o.components))
  }

  /**
   * `GetDiffs(instance, instanceRoot, prefab, prefabRoot)`: with a prefab
   * object, the Property diffs of every paired component, then a Delete diff
   * per prefab component left unpaired, then an Add diff per instance
   * component whose type the prefab object lacks; without one, a single New
   * diff.
   */
  function GetDiffs(ctx: Context, instance: nat, prefab: Option<nat>): (r: seq<Diff>)
    requires ValidContext(ctx) && instance < |ctx.scene| && (prefab.Some? ==> prefab.value < |ctx.prefab|)
    ensures prefab.None? ==> |r| == 1 && r[0].id.operation == New && r[0].effect.CreateGameObject?
    ensures prefab.Some? ==> forall d | d in r :: d.id.operation != New
  {
    match prefab
    case None => [NewDiff(ctx, instance)]
    case Some(pn) =>
      var tcs := ctx.prefab[pn].components;
      var ics := ctx.scene[instance].components;
      DiffRunsHoldNoNew(ctx, pn, tcs, ics);
      PropertyDiffsFrom(ctx, pn, tcs, ics, 0) + DeleteDiffs(pn, DeletedFrom(tcs, ics, 0)) + AddDiffs(pn, AddedFrom(ics, tcs))
  }

  /** Position of an operation in the order `GetDiffs` reports them. */
  function Rank(op: Operation): nat {
    match op
    case Property => 0
    case Delete => 1
    case Add => 2
    case New => 3
  }

  /** The Property diffs of `tcs[i..]` are those of the pairs formed from `tcs[i..]`. */
  lemma {:induction false} PropertyDiffsFromPairs(ctx: Context, node: nat, tcs: seq<Component>, ics: seq<Component>, i: nat)
    requires ValidContext(ctx) && i <= |tcs|
    ensures forall d :: d in PropertyDiffsFrom(ctx, node, tcs, ics, i) <==>
      exists j :: i <= j < |tcs| && d in PairDiffs(ctx, node, tcs, ics, j)
    decreases |tcs| - i
  {
    if i < |tcs| {
      PropertyDiffsFromPairs(ctx, node, tcs, ics, i + 1);
      var here := PairDiffs(ctx, node, tcs, ics, i);
      var rest := PropertyDiffsFrom(ctx, node, tcs, ics, i + 1);
      assert PropertyDiffsFrom(ctx, node, tcs, ics, i) == here + rest;
      forall d ensures d in here + rest <==> exists j :: i <= j < |tcs| && d in PairDiffs(ctx, node, tcs, ics, j) {
        if d in here + rest {
          var j := i;
          if d !in here {
            assert d in rest;
            j :| i + 1 <= j < |tcs| && d in PairDiffs(ctx, node, tcs, ics, j);
          }
          assert i <= j < |tcs| && d in PairDiffs(ctx, node, tcs, ics, j);
        }
        if exists j :: i <= j < |tcs| && d in PairDiffs(ctx, node, tcs, ics, j) {
          var j :| i <= j < |tcs| && d in PairDiffs(ctx, node, tcs, ics, j);
          if j == i {
            assert d in here;
          } else {
            assert d in rest;
          }
        }
      }
    }
  }

  /** Every diff of the first loop is a Property diff. */
  lemma PropertyDiffsAreProperty(ctx: Context, node: nat, tcs: seq<Component>, ics: seq<Component>, i: nat)
    requires ValidContext(ctx) && i <= |tcs|
    ensures forall d | d in PropertyDiffsFrom(ctx, node, tcs, ics, i) :: d.id.operation == Property
  {
    PropertyDiffsFromPairs(ctx, node, tcs, ics, i);
    forall d | d in PropertyDiffsFrom(ctx, node, tcs, ics, i) ensures d.id.operation == Property {
      var j :| i <= j < |tcs| && d in PairDiffs(ctx, node, tcs, ics, j);
      if PairedComponent(tcs, ics, j).Some? {
        FillDiffsCharacterised(ctx, node, PairedComponent(tcs, ics, j).value, tcs[j]);
      }
    }
  }

  /**
   * The shape of `GetDiffs` with a prefab object: Property diffs, then
   * Delete diffs for exactly the prefab components whose type the instance
   * lacks, then Add diffs for exactly the instance components whose type the
   * prefab lacks, in component order.
   */
  lemma GetDiffsShape(ctx: Context, instance: nat, pn: nat)
    requires ValidContext(ctx) && instance < |ctx.scene| && pn < |ctx.prefab|
    ensures var tcs := ctx.prefab[pn].components;
      var ics := ctx.scene[instance].components;
      var props := PropertyDiffsFrom(ctx, pn, tcs, ics, 0);
      && GetDiffs(ctx, instance, Some(pn)) == props + DeleteDiffs(pn, WithoutTypeOf(tcs, ics)) + AddDiffs(pn, WithoutTypeOf(ics, tcs))
      && (forall d | d in props :: d.id.operation == Property)
  {
    var tcs := ctx.prefab[pn].components;
    var ics := ctx.scene[instance].components;
    DeletedAreUnpaired(tcs, ics, 0);
    assert tcs[0..] == tcs;
    AddedAreUnmatched(ics, tcs);
    PropertyDiffsAreProperty(ctx, pn, tcs, ics, 0);
  }

  /** Every diff in `ds` has operation `op`. */
  predicate AllOf(ds: seq<Diff>, op: Operation) {
    forall k | 0 <= k < |ds| :: ds[k].id.operation == op
  }

  /** Three runs of Property, Delete and Add diffs, concatenated, are ordered by rank. */
  lemma RunsOrdered(a: seq<Diff>, b: seq<Diff>, c: seq<Diff>)
    requires AllOf(a, Property) && AllOf(b, Delete) && AllOf(c, Add)
    ensures forall x, y | 0 <= x < y < |a + b + c| :: Rank((a + b + c)[x].id.operation) <= Rank((a + b + c)[y].id.operation)
    ensures forall x | 0 <= x < |a + b + c| :: (a + b + c)[x].id.operation != New
  {
    var r := a + b + c;
    forall k | 0 <= k < |r|
      ensures Rank(r[k].id.operation) == if k < |a| then 0 else if k < |a| + |b| then 1 else 2
    {
      if k < |a| {
        assert r[k] == a[k];
      } else if k < |a| + |b| {
        assert r[k] == b[k - |a|];
      } else {
        assert r[k] == c[k - |a| - |b|];
      }
    }
  }

  /** Diffs come out grouped by operation: Property, then Delete, then Add. */
  lemma GetDiffsOrdered(ctx: Context, instance: nat, prefab: Option<nat>)
    requires ValidContext(ctx) && instance < |ctx.scene| && (prefab.Some? ==> prefab.value < |ctx.prefab|)
    ensures forall a, b | 0 <= a < b < |GetDiffs(ctx, instance, prefab)| ::
      Rank(GetDiffs(ctx, instance, prefab)[a].id.operation) <= Rank(GetDiffs(ctx, instance, prefab)[b].id.operation)
    ensures prefab.Some? ==> forall a | 0 <= a < |GetDiffs(ctx, instance, prefab)| :: GetDiffs(ctx, instance, prefab)[a].id.operation != New
  {
    if prefab.Some? {
      var pn := prefab.value;
      var tcs := ctx.prefab[pn].components;
      var ics := ctx.scene[instance].components;
      assert GetDiffs(ctx, instance, prefab)
        == PropertyDiffsFrom(ctx, pn, tcs, ics, 0) + DeleteDiffs(pn, DeletedFrom(tcs, ics, 0)) + AddDiffs(pn, AddedFrom(ics, tcs));
      DiffRunsOrdered(ctx, pn, tcs, ics, GetDiffs(ctx, instance, prefab));
    } else {
      assert GetDiffs(ctx, instance, prefab) == [NewDiff(ctx, instance)];
    }
  }

  /** The Property, Delete and Add runs `GetDiffs` concatenates hold no New diff. */
  lemma DiffRunsHoldNoNew(ctx: Context, pn: nat, tcs: seq<Component>, ics: seq<Component>)
    requires ValidContext(ctx)
    ensures forall d | d in PropertyDiffsFrom(ctx, pn, tcs, ics, 0) + DeleteDiffs(pn, DeletedFrom(tcs, ics, 0)) + AddDiffs(pn, AddedFrom(ics, tcs)) ::
      d.id.operation != New
  {
    var r := PropertyDiffsFrom(ctx, pn, tcs, ics, 0) + DeleteDiffs(pn, DeletedFrom(tcs, ics, 0)) + AddDiffs(pn, AddedFrom(ics, tcs));
    DiffRunsOrdered(ctx, pn, tcs, ics, r);
    forall d | d in r ensures d.id.operation != New {
      var a :| 0 <= a < |r| && r[a] == d;
    }
  }

  /** The Property, Delete and Add runs `GetDiffs` concatenates are ordered by rank and hold no New diff. */
  lemma DiffRunsOrdered(ctx: Context, pn: nat, tcs: seq<Component>, ics: seq<Component>, r: seq<Diff>)
    requires ValidContext(ctx)
    requires r == PropertyDiffsFrom(ctx, pn, tcs, ics, 0) + DeleteDiffs(pn, DeletedFrom(tcs, ics, 0)) + AddDiffs(pn, AddedFrom(ics, tcs))
    ensures forall a, b | 0 <= a < b < |r| :: Rank(r[a].id.operation) <= Rank(r[b].id.operation)
    ensures forall a | 0 <= a < |r| :: r[a].id.operation != New
  {
    var props := PropertyDiffsFrom(ctx, pn, tcs, ics, 0);
    PropertyDiffsAreProperty(ctx, pn, tcs, ics, 0);
    assert AllOf(props, Property) by {
      forall k | 0 <= k < |props| ensures props[k].id.operation == Property {
        assert props[k] in props;
      }
    }
    RunsOrdered(props, DeleteDiffs(pn, DeletedFrom(tcs, ics, 0)), AddDiffs(pn, AddedFrom(ics, tcs)));
  }

  /** Without a prefab object the only diff is New, named after the instance. */
  lemma GetDiffsNewObject(ctx: Context, instance: nat)
    requires ValidContext(ctx) && instance < |ctx.scene|
    ensures var r := GetDiffs(ctx, instance, None);
      |r| == 1 && r[0].id == DiffId(New, None, Some(ctx.scene[instance].name))
      && r[0].effect.instancePath == GetPathForObjectInHierarchy(ctx.scene, Some(instance), ctx.instanceRoot)
      && r[0].effect.components == ctx.scene[instance].components
  {
  }

  /** Identical component lists give no Property diff when no property repeats a path or names a scene object. */
  lemma {:induction false} NoPropertyDiffsAgainstItself(ctx: Context, node: nat, cs: seq<Component>, i: nat)
    requires ValidContext(ctx) && ReflexiveEqualities(ctx.eq) && i <= |cs|
    requires forall k | 0 <= k < |cs| :: UniquePaths(cs[k].props)
    requires forall k, j | 0 <= k < |cs| && 0 <= j < |cs[k].props| :: NoSceneReference(cs[k].props[j])
    ensures PropertyDiffsFrom(ctx, node, cs, cs, i) == []
    decreases |cs| - i
  {
    if i < |cs| {
      PairedWithItself(cs, i);
      FillDiffsAgainstItself(ctx, node, cs[i]);
      NoPropertyDiffsAgainstItself(ctx, node, cs, i + 1);
    }
  }

  lemma {:induction false} NothingWithoutTypeOfItself(cs: seq<Component>, all: seq<Component>)
    requires forall c | c in cs :: c in all
    ensures WithoutTypeOf(cs, all) == []
    decreases |cs|
  {
    if |cs| > 0 {
      assert cs[0] in cs;
      var k :| 0 <= k < |all| && all[k] == cs[0];
      assert !TypeAbsent(all, cs[0].ctype);
      NothingWithoutTypeOfItself(cs[1..], all);
    }
  }

  /**
   * No false positives: an instance whose components equal its prefab
   * object's yields no diff at all.
   */
  lemma GetDiffsOfUnchangedInstance(ctx: Context, instance: nat, pn: nat)
    requires ValidContext(ctx) && ReflexiveEqualities(ctx.eq) && instance < |ctx.scene| && pn < |ctx.prefab|
    requires ctx.scene[instance].components == ctx.prefab[pn].components
    requires var cs := ctx.prefab[pn].components;
      && (forall k | 0 <= k < |cs| :: UniquePaths(cs[k].props))
      && (forall k, j | 0 <= k < |cs| && 0 <= j < |cs[k].props| :: NoSceneReference(cs[k].props[j]))
    ensures GetDiffs(ctx, instance, Some(pn)) == []
  {
    var cs := ctx.prefab[pn].components;
    GetDiffsShape(ctx, instance, pn);
    NoPropertyDiffsAgainstItself(ctx, pn, cs, 0);
    NothingWithoutTypeOfItself(cs, cs);
  }
}
