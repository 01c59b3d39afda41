/**
 * The slice of Unity's object model the prefab editor works on, as plain data.
 *
 * A hierarchy (a scene, or one prefab asset) is an arena `seq<Node>`: a node
 * names its parent and its children by index.  Components are typed bundles
 * of serialized properties; a property is flattened into the order in which
 * Unity's SerializedProperty iterator visits it, with its nesting depth.
 */
module SceneModel {
  import opened Wrappers

  /** The runtime class of a component, compared by exact equality. */
  type TypeId = string

  /** Unity's instance id: the identity of a component object. */
  type ObjectId = nat

  /** Which hierarchy an in-hierarchy reference points into. */
  datatype Graph = SceneGraph | PrefabGraph

  /**
   * The target of an ObjectReference property.
   * - `Foreign`: a persistent asset that is part of neither hierarchy.
   * - `GameObjectRef` / `ComponentRef`: a game object, or a component attached
   *   to one, identified by its node index in the arena of `graph`. Objects of
   *   the prefab hierarchy are persistent (they live in an asset file).
   * - `OtherRef`: an in-scene object that is neither a game object nor a
   *   component.
   */
  datatype ObjRef =
    | Foreign(asset: ObjectId)
    | GameObjectRef(graph: Graph, node: nat)
    | ComponentRef(graph: Graph, node: nat, ctype: TypeId, id: ObjectId)
    | OtherRef(obj: ObjectId)

  /** `EditorUtility.IsPersistent`: the object is stored in an asset. */
  predicate IsPersistent(r: ObjRef) {
    match r
    case Foreign(_) => true
    case GameObjectRef(g, _) => g == PrefabGraph
    case ComponentRef(g, _, _, _) => g == PrefabGraph
    case OtherRef(_) => false
  }

  datatype WrapMode = DefaultWrap | Once | Loop | PingPong | ClampForever

  datatype Keyframe = Keyframe(time: real, value: real, inTangent: real, outTangent: real)

  datatype AnimationCurve = AnimationCurve(preWrapMode: WrapMode, postWrapMode: WrapMode, keys: seq<Keyframe>)

  /** `SerializedPropertyType`; `Unsupported` stands for every type the diff does not handle. */
  datatype PropertyKind =
    | Integer | LayerMask | Character | ArraySize
    | Boolean | Float | String | Color | Enum
    | Vector2 | Vector3 | Quaternion | Rect | Curve | Bounds
    | ObjectReference | Generic | Unsupported

  /**
   * The stored value of a property. Colors, vectors, quaternions, rects and
   * bounds are their float channels in `StructVal`.
   */
  datatype Value =
    | IntVal(i: int)
    | BoolVal(b: bool)
    | FloatVal(f: real)
    | StringVal(s: string)
    | EnumVal(index: int)
    | StructVal(fields: seq<real>)
    | CurveVal(curve: AnimationCurve)
    | RefVal(ref: Option<ObjRef>)
    | NoVal

  /* Unity's typed accessors (`intValue`, `boolValue`, ...). Reading a value
     through the accessor of another type yields that accessor's default. */

  /**
   * `intValue` is a C# `int`: the low 32 bits of the stored integer, read as
   * two's complement. A `long` field is stored whole in `IntVal` and
   * truncated on every read.
   */
  function Int32(i: int): (r: int)
    ensures -0x8000_0000 <= r < 0x8000_0000
    ensures (i - r) % 0x1_0000_0000 == 0
    ensures -0x8000_0000 <= i < 0x8000_0000 ==> r == i
  {
    var m := i % 0x1_0000_0000;
    if m < 0x8000_0000 then m else m - 0x1_0000_0000
  }

  function IntOf(v: Value): (r: int)
    ensures -0x8000_0000 <= r < 0x8000_0000
    ensures v.IntVal? && -0x8000_0000 <= v.i < 0x8000_0000 ==> r == v.i
  {
    if v.IntVal? then Int32(v.i) else 0
  }

  /** Two stored integers read the same through `intValue` exactly when they agree modulo 2^32. */
  lemma {:induction false} IntOfAgreesModulo(i: int, j: int)
    ensures IntOf(IntVal(i)) == IntOf(IntVal(j)) <==> (i - j) % 0x1_0000_0000 == 0
  {
    var a, b := Int32(i), Int32(j);
    assert (i - a) % 0x1_0000_0000 == 0 && (j - b) % 0x1_0000_0000 == 0;
    ModuloDifference(i, j, a, b);
  }

  lemma ModuloDifference(i: int, j: int, a: int, b: int)
    requires (i - a) % 0x1_0000_0000 == 0 && (j - b) % 0x1_0000_0000 == 0
    requires -0x8000_0000 <= a < 0x8000_0000 && -0x8000_0000 <= b < 0x8000_0000
    ensures a == b <==> (i - j) % 0x1_0000_0000 == 0
  {
    var k1 := (i - a) / 0x1_0000_0000;
    var k2 := (j - b) / 0x1_0000_0000;
    assert i - a == k1 * 0x1_0000_0000;
    assert j - b == k2 * 0x1_0000_0000;
    assert i - j == (k1 - k2) * 0x1_0000_0000 + (a - b);
    if (i - j) % 0x1_0000_0000 == 0 {
      var k := (i - j) / 0x1_0000_0000;
      assert a - b == (k - k1 + k2) * 0x1_0000_0000;
    }
  }
  function BoolOf(v: Value): bool { v.BoolVal? && v.b }
  function FloatOf(v: Value): real { if v.FloatVal? then v.f else 0.0 }
  function StringOf(v: Value): string { if v.StringVal? then v.s else "" }
  function EnumOf(v: Value): int { if v.EnumVal? then v.index else 0 }
  function StructOf(v: Value): seq<real> { if v.StructVal? then v.fields else [] }
  function CurveOf(v: Value): AnimationCurve {
    if v.CurveVal? then v.curve else AnimationCurve(DefaultWrap, DefaultWrap, [])
  }
  function RefOf(v: Value): Option<ObjRef> { if v.RefVal? then v.ref else None }

  /** One entry of a component's serialized-property iteration order. */
  datatype SerializedProperty = SerializedProperty(path: string, kind: PropertyKind, value: Value, depth: nat)

  datatype Component = Component(id: ObjectId, ctype: TypeId, props: seq<SerializedProperty>)

  /** A game object with its transform links. */
  datatype Node = Node(name: string, parent: Option<nat>, children: seq<nat>, components: seq<Component>)

  /**
   * The arena is a forest: every parent precedes its children (so walking up
   * always terminates), and the parent and children links agree.
   */
  ghost predicate WellFormed(s: seq<Node>) {
    && (forall i | 0 <= i < |s| && s[i].parent.Some? :: s[i].parent.value < i && i in s[s[i].parent.value].children)
    && (forall i, j | 0 <= i < |s| && 0 <= j < |s[i].children| ::
          i < s[i].children[j] < |s| && s[s[i].children[j]].parent == Some(i))
  }

  /** Every node has a non-empty name. */
  ghost predicate NamesNonEmpty(s: seq<Node>) {
    forall i | 0 <= i < |s| :: |s[i].name| > 0
  }

  /** No node name contains the path separator. */
  ghost predicate NamesSlashFree(s: seq<Node>) {
    forall i, k | 0 <= i < |s| && 0 <= k < |s[i].name| :: s[i].name[k] != '/'
  }

  /** No two children of one node share a name. */
  ghost predicate UniqueSiblingNames(s: seq<Node>) {
    forall i, j, k | 0 <= i < |s| && 0 <= j < k < |s[i].children| && s[i].children[j] < |s| && s[i].children[k] < |s| ::
      s[s[i].children[j]].name != s[s[i].children[k]].name
  }
}
